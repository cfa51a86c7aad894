/**
 * The hand-over of step-up codes from a dialog to the worker of a child process. The dialog callback runs on
 * another thread, at any time after it is dispatched; the worker may give up at any time.
 */
module StepUp {
  import opened Wrappers

  type Buffer = nat

  const MAX_PROMPTS := 4

  // ---------------------------------------------------------------- the shared slot

  datatype Slot = Slot(active: bool, result: Option<Buffer>)

  /** The prompt hands over its code: the slot after it, and what is left for the prompt to wipe. */
  function Offered(s: Slot, secret: Option<Buffer>): (Slot, Option<Buffer>) {
    if s.active && secret.Some? then (s.(result := secret), None) else (s, secret)
  }

  /** The worker takes whatever is there and closes the slot. */
  function Taken(s: Slot): (Slot, Option<Buffer>) { (Slot(false, None), s.result) }

  class SharedSlot {
    var active: bool
    var result: Option<Buffer>

    function Now(): Slot
      reads this
    {
      Slot(active, result)
    }

    constructor ()
      ensures Now() == Slot(true, None)
    {
      active, result := true, None;
    }

    method Offer(secret: Option<Buffer>) returns (kept: Option<Buffer>)
      modifies this
      ensures (Now(), kept) == Offered(old(Now()), secret)
      ensures kept.None? || kept == secret
    {
      kept := secret;
      if active && secret.Some? {
        result := secret;
        kept := None;
      }
    }

    method Take() returns (value: Option<Buffer>)
      modifies this
      ensures (Now(), value) == Taken(old(Now()))
      ensures !active && result.None?
    {
      active := false;
      value := result;
      result := None;
    }
  }

  // ---------------------------------------------------------------- one request

  datatype Prompt =
    | Idle        // dispatched, not started
    | Asking      // saw the slot open: the dialog is shown
    | Rejecting   // the code is not six to eight digits and is about to be wiped
    | Leaving     // about to hand over
    | Cleaning    // about to wipe what it kept
    | Signalling
    | Ended

  datatype Worker =
    | Dispatching
    | Waiting
    | Cancelling  // gave up and holds what was in the slot
    | Raised
    | Holding     // the request returned a code
    | Wrote
    | Closed(wrote: bool)

  /**
   What has happened to the buffers so far; `refused` are the ill-formed codes, `wiped` the wipes inside the request,
   `cleaned` those after it returned.
   */
  datatype History = History(made: multiset<Buffer>, refused: multiset<Buffer>, wiped: multiset<Buffer>,
                             returned: multiset<Buffer>, wrote: multiset<Buffer>, cleaned: multiset<Buffer>)

  /** `secret` is the local variable of the prompt, `value` the one of the worker. */
  datatype Request = Request(slot: Slot, completed: bool, prompt: Prompt, secret: Option<Buffer>,
                             worker: Worker, value: Option<Buffer>, past: History)

  const FRESH := Request(Slot(true, None), false, Idle, None, Dispatching, None,
                         History(multiset{}, multiset{}, multiset{}, multiset{}, multiset{}, multiset{}))

  datatype Event =
    | PromptStarts
    | CallbackFails
    | CallbackReturns(b: Buffer, wellFormed: bool)
    | PromptRejects
    | PromptOffers
    | PromptCleans
    | PromptSignals
    | DispatchReturns
    | GivesUp          // the dispatcher raised, the deadline passed or the process exited
    | WorkerWipes
    | WorkerTakes
    | WorkerWrites
    | WorkerCleans     // after the write, or instead of it when the process exited or the write failed

  predicate Enabled(r: Request, e: Event) {
    match e
    case PromptStarts => r.prompt == Idle
    case CallbackFails => r.prompt == Asking
    case CallbackReturns(b, _) => r.prompt == Asking && b !in r.past.made
    case PromptRejects => r.prompt == Rejecting
    case PromptOffers => r.prompt == Leaving
    case PromptCleans => r.prompt == Cleaning
    case PromptSignals => r.prompt == Signalling
    case DispatchReturns => r.worker == Dispatching
    case GivesUp => r.worker == Dispatching || r.worker == Waiting
    case WorkerWipes => r.worker == Cancelling
    case WorkerTakes => r.worker == Waiting && r.completed
    case WorkerWrites => r.worker == Holding
    case WorkerCleans => r.worker == Holding || r.worker == Wrote
  }

  /** `m` with one more of the buffer a variable refers to. */
  function Counted(m: multiset<Buffer>, v: Option<Buffer>): multiset<Buffer> {
    if v.Some? then m + multiset{v.value} else m
  }

  function WipedBy(h: History, v: Option<Buffer>): History { h.(wiped := Counted(h.wiped, v)) }

  function Next(r: Request, e: Event): Request
    requires Enabled(r, e)
  {
    match e
    case PromptStarts => r.(prompt := if r.slot.active then Asking else Leaving)
    case CallbackFails => r.(prompt := Leaving)
    case CallbackReturns(b, wellFormed) =>
      r.(prompt := if wellFormed then Leaving else Rejecting, secret := Some(b),
         past := r.past.(made := Counted(r.past.made, Some(b)),
                         refused := Counted(r.past.refused, if wellFormed then None else Some(b))))
    case PromptRejects => r.(prompt := Leaving, secret := None, past := WipedBy(r.past, r.secret))
    case PromptOffers =>
      var (slot, kept) := Offered(r.slot, r.secret);
      r.(prompt := Cleaning, slot := slot, secret := kept)
    case PromptCleans => r.(prompt := Signalling, secret := None, past := WipedBy(r.past, r.secret))
    case PromptSignals => r.(prompt := Ended, completed := true)
    case DispatchReturns => r.(worker := Waiting)
    case GivesUp =>
      var (slot, value) := Taken(r.slot);
      r.(worker := Cancelling, slot := slot, value := value)
    case WorkerWipes => r.(worker := Raised, value := None, past := WipedBy(r.past, r.value))
    case WorkerTakes =>
      var (slot, value) := Taken(r.slot);
      r.(worker := if value.Some? then Holding else Raised, slot := slot, value := value,
         past := r.past.(returned := Counted(r.past.returned, value)))
    case WorkerWrites => r.(worker := Wrote, past := r.past.(wrote := Counted(r.past.wrote, r.value)))
    case WorkerCleans =>
      r.(worker := Closed(r.worker == Wrote), value := None,
         past := r.past.(cleaned := Counted(r.past.cleaned, r.value)))
  }

  // ---------------------------------------------------------------- the invariant of a request

  function Refers(v: Option<Buffer>, b: Buffer): nat { if v == Some(b) then 1 else 0 }

  /** How many variables refer to `b`. */
  function Places(r: Request, b: Buffer): nat { Refers(r.slot.result, b) + Refers(r.secret, b) + Refers(r.value, b) }

  /** Every buffer made is referred to by one variable or has been wiped once; no other buffer occurs. */
  predicate Conserved(r: Request, b: Buffer) {
    Places(r, b) + r.past.wiped[b] + r.past.cleaned[b] == r.past.made[b] <= 1
  }

  /** A buffer is returned or wiped by the request, not both; only a returned one is written, and cleaned after that. */
  predicate Separate(r: Request, b: Buffer) {
    && r.past.returned[b] + r.past.wiped[b] <= 1
    && (!r.worker.Closed? ==> r.past.cleaned[b] == 0)
    && r.past.wrote[b] == (if r.worker.Wrote? || r.worker == Closed(true) then r.past.returned[b] else 0)
    && (r.prompt.Idle? || r.prompt.Asking? ==> r.past.made[b] == 0)
    && r.past.refused[b] <= r.past.made[b]
    && (r.past.refused[b] > 0 ==> r.past.wiped[b] == 1 || (r.prompt.Rejecting? && r.secret == Some(b)))
    && r.past.returned[b] ==
      r.past.cleaned[b] + (if r.worker.Holding? || r.worker.Wrote? then Refers(r.value, b) else 0)
  }

  predicate Staged(r: Request) {
    && (r.slot.active <==> r.worker.Dispatching? || r.worker.Waiting?)
    && (!r.slot.active ==> r.slot.result.None?)
    && (r.worker.Dispatching? || r.worker.Waiting? || r.worker.Raised? || r.worker.Closed? ==> r.value.None?)
    && (r.worker.Holding? || r.worker.Wrote? ==> r.value.Some?)
    && (r.prompt.Idle? || r.prompt.Asking? || r.prompt.Signalling? || r.prompt.Ended? ==> r.secret.None?)
    && (r.slot.result.Some? ==> r.prompt.Cleaning? || r.prompt.Signalling? || r.prompt.Ended?)
    && (r.completed <==> r.prompt.Ended?)
    && (r.worker.Holding? || r.worker.Wrote? || r.worker.Closed? ==> r.completed)
  }

  ghost predicate Inv(r: Request) {
    && Staged(r)
    && (forall b :: Conserved(r, b))
    && (forall b :: Separate(r, b))
  }

  lemma FreshInv()
    ensures Inv(FRESH)
  {}

  lemma StagedKeeps(r: Request, e: Event)
    requires Staged(r) && Enabled(r, e)
    ensures Staged(Next(r, e))
  {}

  predicate OfPrompt(e: Event) {
    e.PromptStarts? || e.CallbackFails? || e.CallbackReturns? || e.PromptRejects? || e.PromptOffers? ||
      e.PromptCleans? || e.PromptSignals?
  }

  lemma PromptKeeps(r: Request, e: Event, b: Buffer)
    requires Staged(r) && Conserved(r, b) && Separate(r, b) && Enabled(r, e) && OfPrompt(e)
    ensures Conserved(Next(r, e), b) && Separate(Next(r, e), b)
  {}

  lemma TakingKeeps(r: Request, e: Event, b: Buffer)
    requires Staged(r) && Conserved(r, b) && Separate(r, b) && Enabled(r, e) && (e.GivesUp? || e.WorkerTakes?)
    ensures Conserved(Next(r, e), b) && Separate(Next(r, e), b)
  {}

  lemma UsingKeeps(r: Request, e: Event, b: Buffer)
    requires Staged(r) && Conserved(r, b) && Separate(r, b) && Enabled(r, e)
    requires e.WorkerWipes? || e.WorkerWrites? || e.WorkerCleans? || e.DispatchReturns?
    ensures Conserved(Next(r, e), b) && Separate(Next(r, e), b)
  {}

  /** No event of the prompt or the worker breaks the invariant, in whatever order they come. */
  lemma EventKeeps(r: Request, e: Event)
    requires Inv(r) && Enabled(r, e)
    ensures Inv(Next(r, e))
  {
    hide Staged, Conserved, Separate, Next, Enabled;
    StagedKeeps(r, e);
    forall b ensures Conserved(Next(r, e), b) && Separate(Next(r, e), b) {
      if OfPrompt(e) {
        PromptKeeps(r, e, b);
      } else if e.GivesUp? || e.WorkerTakes? {
        TakingKeeps(r, e, b);
      } else {
        UsingKeeps(r, e, b);
      }
    }
  }

  // ---------------------------------------------------------------- the requests of one command

  /** The requests a worker has made for its process, oldest first; late prompts of earlier ones may still run. */
  type Command = seq<Request>

  datatype CommandEvent = Asks | At(k: nat, e: Event)

  /** A further request needs the previous code to have been written, and there are at most four. */
  predicate CommandEnabled(c: Command, e: CommandEvent) {
    match e
    case Asks => |c| < MAX_PROMPTS && (|c| > 0 ==> c[|c| - 1].worker == Closed(true))
    case At(k, event) => k < |c| && Enabled(c[k], event)
  }

  function CommandNext(c: Command, e: CommandEvent): Command
    requires CommandEnabled(c, e)
  {
    match e
    case Asks => c + [FRESH]
    case At(k, event) => c[k := Next(c[k], event)]
  }

  ghost predicate CommandInv(c: Command) {
    && |c| <= MAX_PROMPTS
    && (forall k :: 0 <= k < |c| ==> Inv(c[k]))
    && (forall k :: 0 <= k < |c| - 1 ==> c[k].worker == Closed(true))
  }

  ghost predicate Run(states: seq<Command>, events: seq<CommandEvent>) {
    && |states| == |events| + 1
    && states[0] == []
    && forall i :: 0 <= i < |events| ==> Follows(states[i], events[i], states[i + 1])
  }

  ghost predicate Follows(c: Command, e: CommandEvent, d: Command) { CommandEnabled(c, e) && d == CommandNext(c, e) }

  ghost predicate Reachable(c: Command) {
    exists states, events :: Run(states, events) && states[|states| - 1] == c
  }

  lemma ClosedStays(r: Request, e: Event)
    requires Enabled(r, e) && r.worker.Closed?
    ensures Next(r, e).worker == r.worker
  {}

  lemma StepKeeps(c: Command, e: CommandEvent, d: Command)
    requires CommandInv(c) && Follows(c, e, d)
    ensures CommandInv(d)
  {
    hide Inv, Next, Enabled;
    match e
    case Asks =>
      FreshInv();
    case At(k, event) =>
      EventKeeps(c[k], event);
      if k < |c| - 1 { ClosedStays(c[k], event); }
  }

  lemma {:induction false} RunKeeps(states: seq<Command>, events: seq<CommandEvent>, n: nat)
    requires Run(states, events) && n < |states|
    ensures CommandInv(states[n])
  {
    hide CommandInv, Follows;
    if n > 0 {
      RunKeeps(states, events, n - 1);
      StepKeeps(states[n - 1], events[n - 1], states[n]);
    } else {
      EmptyInv();
    }
  }

  lemma EmptyInv()
    ensures CommandInv([])
  {}

  lemma ReachableInv(c: Command)
    requires Reachable(c)
    ensures CommandInv(c)
  {
    hide CommandInv, Follows;
    var states, events :| Run(states, events) && states[|states| - 1] == c;
    RunKeeps(states, events, |states| - 1);
  }

  // ---------------------------------------------------------------- main results

  /** No code is lost, duplicated, or both returned and wiped by the request, whatever the interleaving. */
  lemma CodesConserved(c: Command, k: nat, b: Buffer)
    requires Reachable(c) && k < |c|
    ensures Conserved(c[k], b)
    ensures c[k].past.returned[b] + c[k].past.wiped[b] <= 1
    ensures c[k].past.refused[b] > 0 ==> c[k].past.returned[b] == 0
    ensures c[k].past.wrote[b] <= c[k].past.returned[b]
    ensures c[k].past.cleaned[b] <= c[k].past.returned[b]
  {
    ReachableInv(c);
    assert Inv(c[k]);
    assert Conserved(c[k], b) && Separate(c[k], b);
  }

  /** Once the worker has given up or taken its code, the slot is empty for good. */
  lemma ClosedSlotIsEmpty(c: Command, k: nat)
    requires Reachable(c) && k < |c| && !c[k].slot.active
    ensures c[k].slot.result.None?
    ensures forall e :: Enabled(c[k], e) ==> Next(c[k], e).slot == c[k].slot
  {
    ReachableInv(c);
    assert Inv(c[k]);
  }

  predicate Settled(r: Request) { (r.worker.Raised? || r.worker.Closed?) && (r.prompt.Idle? || r.prompt.Ended?) }

  /** When prompt and worker are done, every code that was made has been wiped exactly once and nothing refers to it. */
  lemma EveryCodeIsWiped(c: Command, k: nat, b: Buffer)
    requires Reachable(c) && k < |c| && Settled(c[k])
    ensures Places(c[k], b) == 0
    ensures c[k].past.wiped[b] + c[k].past.cleaned[b] == c[k].past.made[b] <= 1
    ensures c[k].past.cleaned[b] == c[k].past.returned[b]
  {
    ReachableInv(c);
    assert Inv(c[k]) && Conserved(c[k], b) && Separate(c[k], b);
  }

  /** An earlier request of the same command is over: nothing can happen to it any more. */
  lemma EarlierRequestsAreOver(c: Command, k: nat, e: Event)
    requires Reachable(c) && k < |c| - 1
    ensures !Enabled(c[k], e)
  {
    ReachableInv(c);
    assert Inv(c[k]);
    assert c[k].worker == Closed(true);
  }

  /** The events in order, each enabled when its turn comes. */
  predicate Possible(r: Request, events: seq<Event>)
    decreases |events|
  {
    |events| == 0 || (Enabled(r, events[0]) && Possible(Next(r, events[0]), events[1..]))
  }

  function After(r: Request, events: seq<Event>): Request
    requires Possible(r, events)
    decreases |events|
  {
    if |events| == 0 then r else After(Next(r, events[0]), events[1..])
  }

  lemma {:induction false} AfterTwo(r: Request, first: seq<Event>, second: seq<Event>)
    requires Possible(r, first) && Possible(After(r, first), second)
    ensures Possible(r, first + second) && After(r, first + second) == After(After(r, first), second)
    decreases |first|
  {
    if |first| == 0 {
      assert first + second == second;
    } else {
      assert (first + second)[1..] == first[1..] + second;
      AfterTwo(Next(r, first[0]), first[1..], second);
    }
  }

  lemma AfterFirst(r: Request, events: seq<Event>)
    requires |events| > 0 && Enabled(r, events[0])
    ensures Possible(r, events) <==> Possible(Next(r, events[0]), events[1..])
    ensures Possible(r, events) ==> After(r, events) == After(Next(r, events[0]), events[1..])
  {}

  /** A well-formed code that is offered while the worker waits reaches it. */
  lemma OpenSlotDelivers(r: Request, b: Buffer)
    requires Inv(r) && r.worker == Waiting && r.prompt == Leaving && r.secret == Some(b)
    ensures Possible(r, [PromptOffers, PromptCleans, PromptSignals, WorkerTakes])
    ensures var n := After(r, [PromptOffers, PromptCleans, PromptSignals, WorkerTakes]);
      n.worker == Holding && n.value == Some(b) && n.past == r.past.(returned := r.past.returned + multiset{b})
  {
    hide Conserved, Separate, Possible, After;
    var events := [PromptOffers, PromptCleans, PromptSignals, WorkerTakes];
    var one := Next(r, PromptOffers);
    var two := Next(one, PromptCleans);
    var three := Next(two, PromptSignals);
    assert events[1..] == [PromptCleans, PromptSignals, WorkerTakes];
    assert events[1..][1..] == [PromptSignals, WorkerTakes] && events[1..][1..][1..] == [WorkerTakes];
    Nothing(Next(three, WorkerTakes));
    assert events[1..][1..][1..][1..] == [];
    AfterFirst(three, [WorkerTakes]);
    AfterFirst(two, [PromptSignals, WorkerTakes]);
    AfterFirst(one, [PromptCleans, PromptSignals, WorkerTakes]);
    AfterFirst(r, events);
  }

  /** A code that is offered after the worker gave up waiting is not handed over, and is wiped by the prompt. */
  lemma ClosedSlotKeepsCode(r: Request, b: Buffer)
    requires Inv(r) && r.worker == Waiting && r.prompt == Leaving && r.secret == Some(b)
    ensures Possible(r, [GivesUp, PromptOffers, PromptCleans])
    ensures var n := After(r, [GivesUp, PromptOffers, PromptCleans]);
      n.value == n.secret == n.slot.result == None && n.past == r.past.(wiped := r.past.wiped + multiset{b})
  {
    hide Conserved, Separate, Possible, After;
    var events := [GivesUp, PromptOffers, PromptCleans];
    var one := Next(r, GivesUp);
    var two := Next(one, PromptOffers);
    assert events[1..] == [PromptOffers, PromptCleans] && events[1..][1..] == [PromptCleans];
    Nothing(Next(two, PromptCleans));
    assert events[1..][1..][1..] == [];
    AfterFirst(two, [PromptCleans]);
    AfterFirst(one, [PromptOffers, PromptCleans]);
    AfterFirst(r, events);
  }

  lemma Nothing(r: Request)
    ensures Possible(r, []) && After(r, []) == r
  {}

  /** A fresh request whose prompt is answered with a well-formed code. */
  lemma CodeIsAskedFor(b: Buffer)
    ensures var asking := [DispatchReturns, PromptStarts, CallbackReturns(b, true)];
      && Possible(FRESH, asking)
      && var r := After(FRESH, asking);
         && Inv(r) && r.worker == Waiting && r.prompt == Leaving && r.secret == Some(b)
         && r.past == FRESH.past.(made := multiset{b})
  {
    hide Conserved, Separate, Possible, After, Inv;
    var asking := [DispatchReturns, PromptStarts, CallbackReturns(b, true)];
    var one := Next(FRESH, DispatchReturns);
    var two := Next(one, PromptStarts);
    FreshInv();
    EventKeeps(FRESH, DispatchReturns);
    EventKeeps(one, PromptStarts);
    EventKeeps(two, CallbackReturns(b, true));
    assert asking[1..] == [PromptStarts, CallbackReturns(b, true)] && asking[1..][1..] == [CallbackReturns(b, true)];
    assert asking[1..][1..][1..] == [];
    Nothing(Next(two, CallbackReturns(b, true)));
    AfterFirst(two, asking[1..][1..]);
    AfterFirst(one, asking[1..]);
    AfterFirst(FRESH, asking);
  }

  lemma HeldCodeIsWritten(r: Request, b: Buffer)
    requires r.worker == Holding && r.value == Some(b)
    ensures Possible(r, [WorkerWrites, WorkerCleans])
    ensures After(r, [WorkerWrites, WorkerCleans]).past ==
      r.past.(wrote := r.past.wrote + multiset{b}, cleaned := r.past.cleaned + multiset{b})
  {
    hide Possible, After;
    var writing := [WorkerWrites, WorkerCleans];
    assert writing[1..] == [WorkerCleans] && writing[1..][1..] == [];
    Nothing(Next(Next(r, WorkerWrites), WorkerCleans));
    AfterFirst(Next(r, WorkerWrites), writing[1..]);
    AfterFirst(r, writing);
  }

  /** A request in which a code is asked for, handed over, written, and wiped once after that. */
  lemma CodeIsDelivered(b: Buffer)
    ensures var events := [DispatchReturns, PromptStarts, CallbackReturns(b, true)]
        + [PromptOffers, PromptCleans, PromptSignals, WorkerTakes] + [WorkerWrites, WorkerCleans];
      && Possible(FRESH, events)
      && After(FRESH, events).past ==
           History(multiset{b}, multiset{}, multiset{}, multiset{b}, multiset{b}, multiset{b})
  {
    hide Possible, After, Inv, Next;
    var asking := [DispatchReturns, PromptStarts, CallbackReturns(b, true)];
    var handing := [PromptOffers, PromptCleans, PromptSignals, WorkerTakes];
    CodeIsAskedFor(b);
    var r := After(FRESH, asking);
    OpenSlotDelivers(r, b);
    HeldCodeIsWritten(After(r, handing), b);
    AfterTwo(FRESH, asking, handing);
    AfterTwo(FRESH, asking + handing, [WorkerWrites, WorkerCleans]);
  }
}
