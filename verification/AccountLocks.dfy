/**
 * Account locks and the maintenance lock: shared and exclusive file locks under nested scopes of many threads.
 * The order of locks given by the source lock is not relied on; every interleaving of lock operations is a run.
 */
module AccountLocks {
  import opened Wrappers

  type Handle = nat
  type ThreadId = nat
  type AccountId = nat

  datatype File = MaintenanceFile | AccountFile(id: AccountId)

  /** A granted lock, with the thread that opened the file and the depth of its scope at the time. */
  datatype Hold = Hold(file: File, exclusive: bool, thread: ThreadId, level: nat)

  /** The lock table of the operating system. Every open of a file has its own handle. */
  type Table = map<Handle, Hold>

  predicate Conflicting(a: Hold, b: Hold) { a.file == b.file && (a.exclusive || b.exclusive) }

  predicate Grantable(held: Table, want: Hold) { forall h :: h in held ==> !Conflicting(held[h], want) }

  // ---------------------------------------------------------------- one thread

  /** The open scopes of a thread, outermost first. */
  datatype Frame =
    | Exclusive(h: Handle)               // the outer maintenance scope
    | Nested                             // a maintenance scope inside another
    | Guard(h: Handle)                   // the shared maintenance lock of an account scope
    | Unguarded                          // the same inside a maintenance scope, which needs no lock
    | Account(id: AccountId, h: Handle)

  datatype Phase =
    | Running
    | WantsExclusive
    | Opening               // holds the exclusive lock, the depth is not set yet
    | WantsGuard(id: AccountId)
    | WantsAccount(id: AccountId)
    | Unwinding             // an account scope is about to drop its guard
    | Closing               // the depth is cleared, the exclusive lock is about to be released

  datatype Thread = Thread(depth: nat, frames: seq<Frame>, phase: Phase)

  datatype Action =
    | BeginMaintenance
    | BeginAccount(id: AccountId)
    | Grant(h: Handle)      // an attempt to lock succeeds
    | GiveUp                // the deadline passed
    | SetDepth
    | Leave                 // the innermost scope ends, normally or by an exception
    | Unwind

  /** The lock a thread waits for. */
  function Wanted(t: ThreadId, th: Thread): Option<Hold> {
    match th.phase
    case WantsExclusive => Some(Hold(MaintenanceFile, true, t, |th.frames|))
    case WantsGuard(_) => Some(Hold(MaintenanceFile, false, t, |th.frames|))
    case WantsAccount(id) => Some(Hold(AccountFile(id), true, t, |th.frames|))
    case _ => None
  }

  function Top(th: Thread): Frame
    requires |th.frames| > 0
  {
    th.frames[|th.frames| - 1]
  }

  function Popped(th: Thread): Thread
    requires |th.frames| > 0
  {
    th.(frames := th.frames[..|th.frames| - 1])
  }

  function Pushed(th: Thread, f: Frame): Thread { th.(frames := th.frames + [f]) }

  predicate Enabled(t: ThreadId, th: Thread, held: Table, a: Action) {
    match a
    case BeginMaintenance => th.phase == Running
    case BeginAccount(_) => th.phase == Running
    case Grant(h) => h !in held && Wanted(t, th).Some? && Grantable(held, Wanted(t, th).value)
    case GiveUp => Wanted(t, th).Some?
    case SetDepth => th.phase == Opening
    case Leave => th.phase == Running && |th.frames| > 0 && !Top(th).Guard? && !Top(th).Unguarded?
    case Unwind =>
      && |th.frames| > 0
      && ((th.phase == Closing && Top(th).Exclusive?)
          || (th.phase == Unwinding && (Top(th).Guard? || Top(th).Unguarded?)))
  }

  function Begun(th: Thread): Thread {
    if th.depth > 0 then Pushed(th, Nested).(depth := th.depth + 1) else th.(phase := WantsExclusive)
  }

  function BegunAccount(th: Thread, id: AccountId): Thread {
    if th.depth > 0 then Pushed(th, Unguarded).(phase := WantsAccount(id)) else th.(phase := WantsGuard(id))
  }

  function Granted(th: Thread, h: Handle): Thread {
    match th.phase
    case WantsExclusive => Pushed(th, Exclusive(h)).(phase := Opening)
    case WantsGuard(id) => Pushed(th, Guard(h)).(phase := WantsAccount(id))
    case WantsAccount(id) => Pushed(th, Account(id, h)).(phase := Running)
    case _ => th
  }

  function Left(th: Thread): Thread
    requires |th.frames| > 0
  {
    match Top(th)
    case Nested => Popped(th).(depth := if th.depth > 0 then th.depth - 1 else 0)
    case Exclusive(_) => th.(depth := 0, phase := Closing)
    case Account(_, _) => Popped(th).(phase := Unwinding)
    case _ => th
  }

  /** The lock that ends with the innermost scope. */
  function Ends(f: Frame): set<Handle> {
    match f
    case Exclusive(h) => {h}
    case Guard(h) => {h}
    case Account(_, h) => {h}
    case _ => {}
  }

  /** One action of thread `t`: its own state and the lock table afterwards. */
  function Act(t: ThreadId, th: Thread, held: Table, a: Action): (Thread, Table)
    requires Enabled(t, th, held, a)
  {
    match a
    case BeginMaintenance => (Begun(th), held)
    case BeginAccount(id) => (BegunAccount(th, id), held)
    case Grant(h) => (Granted(th, h), held[h := Wanted(t, th).value])
    case GiveUp => (th.(phase := if th.phase.WantsAccount? then Unwinding else Running), held)
    case SetDepth => (th.(depth := 1, phase := Running), held)
    case Leave => (Left(th), if Top(th).Account? then held - Ends(Top(th)) else held)
    case Unwind => (Popped(th).(phase := Running), held - Ends(Top(th)))
  }

  /**
   * The retry loop of one lock. Attempt `i` meets the table `seen(i)`; if it is refused, the clock then reads
   * `clock(i)`, and the wait before the next attempt makes it advance. The first attempt is always made, and the loop
   * gives up at the first refusal past the deadline.
   */
  method Acquire(t: ThreadId, th: Thread, seen: nat -> Table, clock: nat -> int, deadline: int)
    returns (attempt: Option<nat>)
    requires Wanted(t, th).Some?
    requires forall i: nat, j: nat :: i < j ==> clock(i) < clock(j)
    ensures attempt.Some? ==> Waits(t, th, seen, clock, deadline, attempt.value)
    ensures attempt.Some? ==> forall h :: h !in seen(attempt.value) ==> Enabled(t, th, seen(attempt.value), Grant(h))
    ensures attempt.None? ==>
      exists n: nat :: clock(n) >= deadline && Waits(t, th, seen, clock, deadline, n) && Refused(t, th, seen(n))
  {
    var want := Wanted(t, th).value;
    var i: nat := 0;
    while true
      invariant Waits(t, th, seen, clock, deadline, i)
      decreases deadline - clock(i)
    {
      if Grantable(seen(i), want) { return Some(i); }
      if clock(i) >= deadline { return None; }
      i := i + 1;
    }
  }

  /** No handle can be granted the lock the thread waits for. */
  predicate Refused(t: ThreadId, th: Thread, held: Table) {
    Wanted(t, th).Some? && !Grantable(held, Wanted(t, th).value)
  }

  /** The attempts before `n` are refused, each before the deadline. */
  predicate Waits(t: ThreadId, th: Thread, seen: nat -> Table, clock: nat -> int, deadline: int, n: nat) {
    forall i: nat :: i < n ==> Refused(t, th, seen(i)) && clock(i) < deadline
  }

  /** The thread-local depth and the scopes of one thread, changed in place. */
  class LocalState {
    const id: ThreadId
    var depth: nat
    var frames: seq<Frame>
    var phase: Phase

    function Now(): Thread
      reads this
    {
      Thread(depth, frames, phase)
    }

    constructor (id: ThreadId)
      ensures Now() == Thread(0, [], Running) && this.id == id
    {
      this.id, depth, frames, phase := id, 0, [], Running;
    }

    method EnterMaintenance()
      requires phase == Running
      modifies this
      ensures Now() == Begun(old(Now()))
    {
      if depth > 0 {
        depth := depth + 1;
        frames := frames + [Nested];
      } else {
        phase := WantsExclusive;
      }
    }

    method EnterAccount(account: AccountId)
      requires phase == Running
      modifies this
      ensures Now() == BegunAccount(old(Now()), account)
    {
      if depth > 0 {
        frames := frames + [Unguarded];
        phase := WantsAccount(account);
      } else {
        phase := WantsGuard(account);
      }
    }

    method Lock(h: Handle)
      requires Wanted(id, Now()).Some?
      modifies this
      ensures Now() == Granted(old(Now()), h)
    {
      match phase
      case WantsExclusive =>
        frames := frames + [Exclusive(h)];
        phase := Opening;
      case WantsGuard(account) =>
        frames := frames + [Guard(h)];
        phase := WantsAccount(account);
      case WantsAccount(account) =>
        frames := frames + [Account(account, h)];
        phase := Running;
    }

    method SetDepth()
      requires phase == Opening
      modifies this
      ensures Now() == old(Now()).(depth := 1, phase := Running)
    {
      depth := 1;
      phase := Running;
    }

    /** Ends the innermost scope; `released` is the lock to release at once. */
    method LeaveScope() returns (released: set<Handle>)
      requires phase == Running && |frames| > 0 && !Top(Now()).Guard? && !Top(Now()).Unguarded?
      modifies this
      ensures Now() == Left(old(Now()))
      ensures released == if Top(old(Now())).Account? then Ends(Top(old(Now()))) else {}
    {
      released := {};
      match frames[|frames| - 1]
      case Nested =>
        frames := frames[..|frames| - 1];
        if depth > 0 { depth := depth - 1; }
      case Exclusive(_) =>
        depth := 0;
        phase := Closing;
      case Account(_, h) =>
        frames := frames[..|frames| - 1];
        phase := Unwinding;
        released := {h};
    }

    /** Drops the guard of an account scope, or the exclusive lock of the outer maintenance scope. */
    method DropGuard() returns (released: set<Handle>)
      requires |frames| > 0 && (phase == Closing || phase == Unwinding)
      modifies this
      ensures Now() == Popped(old(Now())).(phase := Running)
      ensures released == Ends(Top(old(Now())))
    {
      released := Ends(frames[|frames| - 1]);
      frames := frames[..|frames| - 1];
      phase := Running;
    }
  }

  // ---------------------------------------------------------------- all threads

  datatype State = State(threads: seq<Thread>, held: Table)

  datatype Event = Event(t: ThreadId, a: Action)

  const IDLE := Thread(0, [], Running)

  ghost predicate Follows(s: State, e: Event, n: State) {
    && e.t < |s.threads|
    && Enabled(e.t, s.threads[e.t], s.held, e.a)
    && n == Stepped(s, e.t, Act(e.t, s.threads[e.t], s.held, e.a))
  }

  function Stepped(s: State, t: ThreadId, r: (Thread, Table)): State
    requires t < |s.threads|
  {
    State(s.threads[t := r.0], r.1)
  }

  ghost predicate Run(states: seq<State>, events: seq<Event>) {
    && |states| == |events| + 1
    && states[0].held == map[]
    && (forall t :: 0 <= t < |states[0].threads| ==> states[0].threads[t] == IDLE)
    && forall i :: 0 <= i < |events| ==> Follows(states[i], events[i], states[i + 1])
  }

  ghost predicate Reachable(s: State) {
    exists states, events :: Run(states, events) && states[|states| - 1] == s
  }

  // ---------------------------------------------------------------- the shape of one thread

  predicate Maintains(th: Thread) { |th.frames| > 0 && th.frames[0].Exclusive? }

  predicate GuardLike(f: Frame) { f.Guard? || f.Unguarded? }

  /** Only the outermost scope holds the exclusive lock; inside it no guards are taken; a section follows its guard. */
  predicate FrameFits(th: Thread, i: nat)
    requires i < |th.frames|
  {
    && (th.frames[i].Account? <==> i > 0 && GuardLike(th.frames[i - 1]))
    && match th.frames[i]
       case Exclusive(_) => i == 0
       case Nested => Maintains(th)
       case Guard(_) => !Maintains(th)
       case Unguarded => Maintains(th)
       case Account(_, _) => true
  }

  /** The number of open maintenance scopes. */
  function MaintenanceScopes(frames: seq<Frame>): nat {
    if |frames| == 0 then 0
    else
      var f := frames[|frames| - 1];
      MaintenanceScopes(frames[..|frames| - 1]) + (if f.Exclusive? || f.Nested? then 1 else 0)
  }

  predicate PhaseFits(th: Thread) {
    match th.phase
    case Running => |th.frames| > 0 ==> !GuardLike(Top(th))
    case WantsExclusive => th.depth == 0 && (|th.frames| > 0 ==> !GuardLike(Top(th)))
    case WantsGuard(_) => th.depth == 0 && (|th.frames| > 0 ==> !GuardLike(Top(th)))
    case WantsAccount(_) => |th.frames| > 0 && GuardLike(Top(th))
    case Unwinding => |th.frames| > 0 && GuardLike(Top(th))
    case Opening => |th.frames| == 1 && Maintains(th)
    case Closing => |th.frames| == 1 && Maintains(th)
  }

  predicate DepthFits(th: Thread) {
    th.depth == if th.phase.Opening? || th.phase.Closing? then 0 else MaintenanceScopes(th.frames)
  }

  predicate FramesFit(th: Thread) { forall i :: 0 <= i < |th.frames| ==> FrameFits(th, i) }

  predicate Shaped(th: Thread) { FramesFit(th) && PhaseFits(th) && DepthFits(th) }

  lemma {:induction false} ScopesOfMaintainer(frames: seq<Frame>)
    requires |frames| > 0 && frames[0].Exclusive?
    ensures MaintenanceScopes(frames) > 0
  {
    if |frames| > 1 { ScopesOfMaintainer(frames[..|frames| - 1]); }
  }

  lemma {:induction false} ScopesOfOthers(frames: seq<Frame>)
    requires forall i :: 0 <= i < |frames| ==> !frames[i].Exclusive? && !frames[i].Nested?
    ensures MaintenanceScopes(frames) == 0
  {
    if |frames| > 0 { ScopesOfOthers(frames[..|frames| - 1]); }
  }

  /** Outside the short phases of opening and closing, the depth is positive exactly while the thread maintains. */
  lemma DepthMeansMaintaining(th: Thread)
    requires Shaped(th) && !th.phase.Opening? && !th.phase.Closing?
    ensures th.depth > 0 <==> Maintains(th)
  {
    if Maintains(th) {
      ScopesOfMaintainer(th.frames);
    } else {
      forall i | 0 <= i < |th.frames|
        ensures !th.frames[i].Exclusive? && !th.frames[i].Nested?
      {
        assert FrameFits(th, i);
      }
      ScopesOfOthers(th.frames);
    }
  }

  lemma PushShapes(th: Thread, f: Frame, phase: Phase)
    requires FramesFit(th)
    requires FrameFits(Pushed(th, f), |th.frames|)
    requires |th.frames| == 0 || Maintains(th) == Maintains(Pushed(th, f))
    ensures FramesFit(Pushed(th, f).(phase := phase))
    ensures MaintenanceScopes(Pushed(th, f).frames) ==
      MaintenanceScopes(th.frames) + (if f.Exclusive? || f.Nested? then 1 else 0)
  {
    var n := Pushed(th, f);
    assert n.frames[..|n.frames| - 1] == th.frames;
    forall i | 0 <= i < |n.frames| ensures FrameFits(n, i) {
      if i < |th.frames| { assert FrameFits(th, i); }
    }
    forall i | 0 <= i < |n.frames| ensures FrameFits(n.(phase := phase), i) { assert FrameFits(n, i); }
  }

  lemma PopShapes(th: Thread, phase: Phase, depth: nat)
    requires FramesFit(th) && |th.frames| > 0
    ensures FramesFit(Popped(th).(phase := phase, depth := depth))
    ensures MaintenanceScopes(th.frames) ==
      MaintenanceScopes(Popped(th).frames) + (if Top(th).Exclusive? || Top(th).Nested? then 1 else 0)
  {
    var n := Popped(th).(phase := phase, depth := depth);
    forall i | 0 <= i < |n.frames| ensures FrameFits(n, i) { assert FrameFits(th, i); }
  }

  lemma SameFramesShape(th: Thread, phase: Phase, depth: nat)
    requires FramesFit(th)
    ensures FramesFit(th.(phase := phase, depth := depth))
  {
    var n := th.(phase := phase, depth := depth);
    forall i | 0 <= i < |n.frames| ensures FrameFits(n, i) { assert FrameFits(th, i); }
  }

  lemma BeginShapes(th: Thread)
    requires Shaped(th) && th.phase == Running
    ensures Shaped(Begun(th))
    ensures forall id :: Shaped(BegunAccount(th, id))
  {
    DepthMeansMaintaining(th);
    hide FramesFit, MaintenanceScopes;
    if th.depth > 0 {
      PushNested(th);
      PushUnguarded(th);
      forall id ensures Shaped(BegunAccount(th, id)) {
        SameFramesShape(Pushed(th, Unguarded), WantsAccount(id), th.depth);
      }
    } else {
      SameFramesShape(th, WantsExclusive, th.depth);
      forall id ensures Shaped(BegunAccount(th, id)) { SameFramesShape(th, WantsGuard(id), th.depth); }
    }
  }

  lemma PushNested(th: Thread)
    requires Shaped(th) && th.phase == Running && Maintains(th)
    ensures FramesFit(Pushed(th, Nested).(depth := th.depth + 1))
    ensures MaintenanceScopes(Pushed(th, Nested).frames) == MaintenanceScopes(th.frames) + 1
  {
    PushShapes(th, Nested, Running);
    SameFramesShape(Pushed(th, Nested), Running, th.depth + 1);
  }

  lemma PushUnguarded(th: Thread)
    requires Shaped(th) && th.phase == Running && Maintains(th)
    ensures FramesFit(Pushed(th, Unguarded))
    ensures MaintenanceScopes(Pushed(th, Unguarded).frames) == MaintenanceScopes(th.frames)
  {
    PushShapes(th, Unguarded, Running);
  }

  lemma GrantShapes(th: Thread, h: Handle)
    requires Shaped(th) && (th.phase.WantsExclusive? || th.phase.WantsGuard? || th.phase.WantsAccount?)
    requires th.phase == WantsExclusive ==> th.frames == []
    ensures Shaped(Granted(th, h))
  {
    match th.phase
    case WantsExclusive =>
      PushShapes(th, Exclusive(h), Opening);
    case WantsGuard(id) =>
      DepthMeansMaintaining(th);
      PushShapes(th, Guard(h), WantsAccount(id));
    case WantsAccount(id) =>
      PushShapes(th, Account(id, h), Running);
  }

  lemma GiveUpShapes(th: Thread)
    requires Shaped(th) && (th.phase.WantsExclusive? || th.phase.WantsGuard? || th.phase.WantsAccount?)
    ensures Shaped(th.(phase := if th.phase.WantsAccount? then Unwinding else Running))
  {
    SameFramesShape(th, if th.phase.WantsAccount? then Unwinding else Running, th.depth);
  }

  lemma OpenedShapes(th: Thread)
    requires Shaped(th) && th.phase == Opening
    ensures Shaped(th.(depth := 1, phase := Running))
  {
    SameFramesShape(th, Running, 1);
    assert MaintenanceScopes(th.frames[..0]) == 0;
  }

  lemma LeaveShapes(th: Thread)
    requires Shaped(th) && th.phase == Running && |th.frames| > 0
    ensures Shaped(Left(th))
  {
    var last := |th.frames| - 1;
    assert FrameFits(th, last);
    match Top(th)
    case Nested =>
      PopShapes(th, Running, if th.depth > 0 then th.depth - 1 else 0);
      assert last > 0 ==> !GuardLike(th.frames[last - 1]);
    case Exclusive(_) =>
      SameFramesShape(th, Closing, 0);
    case Account(_, _) =>
      PopShapes(th, Unwinding, th.depth);
    case _ =>
  }

  lemma UnwindShapes(th: Thread)
    requires Shaped(th) && |th.frames| > 0
    requires (th.phase == Closing && Top(th).Exclusive?) || (th.phase == Unwinding && GuardLike(Top(th)))
    ensures Shaped(Popped(th).(phase := Running))
  {
    var last := |th.frames| - 1;
    assert FrameFits(th, last);
    PopShapes(th, Running, th.depth);
    assert last > 0 && th.phase == Unwinding ==> !GuardLike(th.frames[last - 1]);
  }

  /** Every action of a thread keeps its own shape, given that an exclusive lock is only granted outside all scopes. */
  lemma ActShapes(t: ThreadId, th: Thread, held: Table, a: Action)
    requires Shaped(th) && Enabled(t, th, held, a)
    requires a.Grant? && th.phase == WantsExclusive ==> th.frames == []
    ensures Shaped(Act(t, th, held, a).0)
  {
    hide Shaped, Grantable, Left, Begun, BegunAccount, Granted;
    match a
    case BeginMaintenance => BeginShapes(th);
    case BeginAccount(_) => BeginShapes(th);
    case Grant(h) => GrantShapes(th, h);
    case GiveUp => GiveUpShapes(th);
    case SetDepth => OpenedShapes(th);
    case Leave => LeaveShapes(th);
    case Unwind => UnwindShapes(th);
  }

  // ---------------------------------------------------------------- scopes and the lock table

  /** The lock a scope holds, seen from the thread and the depth of the scope. */
  function HoldOf(t: ThreadId, level: nat, f: Frame): Hold {
    match f
    case Account(id, _) => Hold(AccountFile(id), true, t, level)
    case _ => Hold(MaintenanceFile, f.Exclusive?, t, level)
  }

  predicate FrameHeld(s: State, t: ThreadId, i: nat)
    requires t < |s.threads| && i < |s.threads[t].frames|
  {
    var f := s.threads[t].frames[i];
    forall h :: h in Ends(f) ==> h in s.held && s.held[h] == HoldOf(t, i, f)
  }

  ghost predicate FramesHeld(s: State) {
    forall t, i :: 0 <= t < |s.threads| && 0 <= i < |s.threads[t].frames| ==> FrameHeld(s, t, i)
  }

  predicate HandleOwned(s: State, h: Handle)
    requires h in s.held
  {
    var hold := s.held[h];
    && hold.thread < |s.threads|
    && hold.level < |s.threads[hold.thread].frames|
    && h in Ends(s.threads[hold.thread].frames[hold.level])
  }

  ghost predicate HandlesOwned(s: State) { forall h :: h in s.held ==> HandleOwned(s, h) }

  ghost predicate Exclusion(held: Table) {
    forall g, h :: g in held && h in held && g != h ==> !Conflicting(held[g], held[h])
  }

  ghost predicate AllShaped(s: State) { forall t :: 0 <= t < |s.threads| ==> Shaped(s.threads[t]) }

  ghost predicate Inv(s: State) { AllShaped(s) && FramesHeld(s) && HandlesOwned(s) && Exclusion(s.held) }

  /** The outermost scope of a thread holds the maintenance lock, exclusively if the thread maintains. */
  lemma OutermostHolds(s: State, t: ThreadId) returns (h: Handle)
    requires Inv(s) && t < |s.threads| && |s.threads[t].frames| > 0
    ensures h in s.held && s.held[h] == Hold(MaintenanceFile, Maintains(s.threads[t]), t, 0)
  {
    var f := s.threads[t].frames[0];
    assert Shaped(s.threads[t]) && FrameFits(s.threads[t], 0) && FrameHeld(s, t, 0);
    assert f.Exclusive? || f.Guard?;
    h := f.h;
    assert h in Ends(f);
  }

  /** A thread that is granted the exclusive lock has no scope open: any guard of its own would be in the way. */
  lemma GrantedOutsideScopes(s: State, t: ThreadId, h: Handle)
    requires Inv(s) && t < |s.threads| && s.threads[t].phase == WantsExclusive
    requires Enabled(t, s.threads[t], s.held, Grant(h))
    ensures s.threads[t].frames == []
  {
    if |s.threads[t].frames| > 0 { var g := OutermostHolds(s, t); }
  }

  /** Changing only the depth and the phase of a thread leaves scopes and locks linked. */
  lemma SameLinks(s: State, t: ThreadId, th: Thread)
    requires FramesHeld(s) && HandlesOwned(s) && t < |s.threads| && th.frames == s.threads[t].frames
    ensures FramesHeld(Stepped(s, t, (th, s.held))) && HandlesOwned(Stepped(s, t, (th, s.held)))
  {
    var n := Stepped(s, t, (th, s.held));
    forall u, i | 0 <= u < |n.threads| && 0 <= i < |n.threads[u].frames|
      ensures FrameHeld(n, u, i)
    {
      assert FrameHeld(s, u, i);
    }
    forall h | h in n.held ensures HandleOwned(n, h) { assert HandleOwned(s, h); }
  }

  /** Opening a scope with its lock, if it has one. */
  lemma PushLinks(s: State, t: ThreadId, th: Thread, f: Frame, held: Table)
    requires FramesHeld(s) && HandlesOwned(s) && t < |s.threads|
    requires th.frames == s.threads[t].frames + [f]
    requires forall h :: h in Ends(f) ==> h !in s.held
    requires held == s.held + map h | h in Ends(f) :: HoldOf(t, |s.threads[t].frames|, f)
    ensures FramesHeld(Stepped(s, t, (th, held))) && HandlesOwned(Stepped(s, t, (th, held)))
  {
    var n := Stepped(s, t, (th, held));
    forall u, i | 0 <= u < |n.threads| && 0 <= i < |n.threads[u].frames| ensures FrameHeld(n, u, i) {
      if u != t || i < |s.threads[t].frames| { assert FrameHeld(s, u, i); }
    }
    forall h | h in n.held ensures HandleOwned(n, h) {
      if h in s.held { assert HandleOwned(s, h); }
    }
  }

  /** Closing a scope with its lock. */
  lemma PopLinks(s: State, t: ThreadId, th: Thread, held: Table)
    requires FramesHeld(s) && HandlesOwned(s) && t < |s.threads| && |s.threads[t].frames| > 0
    requires th.frames == Popped(s.threads[t]).frames
    requires held == s.held - Ends(Top(s.threads[t]))
    ensures FramesHeld(Stepped(s, t, (th, held))) && HandlesOwned(Stepped(s, t, (th, held)))
  {
    var n := Stepped(s, t, (th, held));
    var last := |s.threads[t].frames| - 1;
    assert FrameHeld(s, t, last);
    forall u, i | 0 <= u < |n.threads| && 0 <= i < |n.threads[u].frames|
      ensures FrameHeld(n, u, i)
    {
      assert FrameHeld(s, u, i);
    }
    forall h | h in n.held ensures HandleOwned(n, h) { assert HandleOwned(s, h); }
  }

  lemma GrantLinks(s: State, t: ThreadId, h: Handle)
    requires FramesHeld(s) && HandlesOwned(s) && t < |s.threads| && Enabled(t, s.threads[t], s.held, Grant(h))
    ensures FramesHeld(Stepped(s, t, Act(t, s.threads[t], s.held, Grant(h))))
    ensures HandlesOwned(Stepped(s, t, Act(t, s.threads[t], s.held, Grant(h))))
  {
    var th := s.threads[t];
    var f := match th.phase
      case WantsExclusive => Exclusive(h)
      case WantsGuard(_) => Guard(h)
      case WantsAccount(id) => Account(id, h)
      case _ => Nested;
    var (after, held) := Act(t, th, s.held, Grant(h));
    assert Ends(f) == {h};
    assert held == s.held + map g | g in Ends(f) :: HoldOf(t, |th.frames|, f);
    PushLinks(s, t, after, f, held);
  }

  /** Every action keeps open scopes and held locks in step. */
  lemma ActLinks(s: State, t: ThreadId, a: Action)
    requires AllShaped(s) && FramesHeld(s) && HandlesOwned(s) && t < |s.threads| && Enabled(t, s.threads[t], s.held, a)
    ensures FramesHeld(Stepped(s, t, Act(t, s.threads[t], s.held, a)))
    ensures HandlesOwned(Stepped(s, t, Act(t, s.threads[t], s.held, a)))
  {
    hide FramesHeld, HandlesOwned, AllShaped, Grantable;
    var th := s.threads[t];
    var (after, held) := Act(t, th, s.held, a);
    if a.Grant? {
      GrantLinks(s, t, a.h);
    } else if after.frames == th.frames && held == s.held {
      SameLinks(s, t, after);
    } else if a.BeginMaintenance? || a.BeginAccount? {
      var f := if a.BeginMaintenance? then Nested else Unguarded;
      PushLinks(s, t, after, f, held);
    } else {
      PopLinks(s, t, after, held);
    }
  }

  lemma ActExcludes(t: ThreadId, th: Thread, held: Table, a: Action)
    requires Exclusion(held) && Enabled(t, th, held, a)
    ensures Exclusion(Act(t, th, held, a).1)
  {
    var n := Act(t, th, held, a).1;
    forall g, h | g in n && h in n && g != h ensures !Conflicting(n[g], n[h]) {
      if g in held && h in held { assert !Conflicting(held[g], held[h]); }
    }
  }

  lemma EventKeeps(s: State, e: Event, n: State)
    requires Inv(s) && Follows(s, e, n)
    ensures Inv(n) && |n.threads| == |s.threads|
  {
    var th := s.threads[e.t];
    assert Shaped(th);
    if e.a.Grant? && th.phase == WantsExclusive { GrantedOutsideScopes(s, e.t, e.a.h); }
    hide Shaped, FramesHeld, HandlesOwned, Exclusion, Act;
    ActShapes(e.t, th, s.held, e.a);
    ActLinks(s, e.t, e.a);
    ActExcludes(e.t, th, s.held, e.a);
  }

  lemma {:induction false} RunKeeps(states: seq<State>, events: seq<Event>, n: nat)
    requires Run(states, events) && n < |states|
    ensures Inv(states[n])
  {
    if n == 0 {
      StartInv(states[0]);
    } else {
      hide Inv, Follows;
      RunKeeps(states, events, n - 1);
      EventKeeps(states[n - 1], events[n - 1], states[n]);
    }
  }

  lemma StartInv(s: State)
    requires s.held == map[] && forall t :: 0 <= t < |s.threads| ==> s.threads[t] == IDLE
    ensures Inv(s)
  {}

  lemma ReachableInv(s: State)
    requires Reachable(s)
    ensures Inv(s)
  {
    hide Inv, Follows;
    var states, events :| Run(states, events) && states[|states| - 1] == s;
    RunKeeps(states, events, |states| - 1);
  }

  // ---------------------------------------------------------------- main results

  /** The thread is inside a section of the account, that is, between acquiring and releasing its lock. */
  ghost predicate InSection(s: State, t: ThreadId, i: nat, id: AccountId) {
    t < |s.threads| && i < |s.threads[t].frames| && s.threads[t].frames[i].Account? && s.threads[t].frames[i].id == id
  }

  ghost predicate InMaintenance(s: State, t: ThreadId) { t < |s.threads| && Maintains(s.threads[t]) }

  /** While one thread maintains, no other thread maintains, holds a guard, or is inside the section of any account. */
  lemma MaintenanceExcludesSections(s: State, t: ThreadId, u: ThreadId)
    requires Reachable(s) && InMaintenance(s, t) && u < |s.threads| && u != t
    ensures s.threads[u].frames == []
    ensures forall i, id :: !InSection(s, u, i, id)
  {
    ReachableInv(s);
    var mine := OutermostHolds(s, t);
    if |s.threads[u].frames| > 0 { var others := OutermostHolds(s, u); }
  }

  /** No two sections of the same account overlap, not even on the same thread. */
  lemma SectionsExclude(s: State, t: ThreadId, i: nat, u: ThreadId, j: nat, id: AccountId)
    requires Reachable(s) && InSection(s, t, i, id) && InSection(s, u, j, id)
    ensures t == u && i == j
  {
    ReachableInv(s);
    var f, g := s.threads[t].frames[i], s.threads[u].frames[j];
    assert FrameHeld(s, t, i) && FrameHeld(s, u, j);
    assert f.h in Ends(f) && g.h in Ends(g);
  }

  /** The depth of a running thread is the number of its open maintenance scopes. */
  lemma DepthCountsScopes(s: State, t: ThreadId)
    requires Reachable(s) && t < |s.threads| && !s.threads[t].phase.Opening? && !s.threads[t].phase.Closing?
    ensures s.threads[t].depth == MaintenanceScopes(s.threads[t].frames)
    ensures s.threads[t].depth > 0 <==> Maintains(s.threads[t])
  {
    ReachableInv(s);
    DepthMeansMaintaining(s.threads[t]);
  }

  lemma ExclusiveHolderMaintains(s: State, h: Handle)
    requires Inv(s) && h in s.held && s.held[h].file == MaintenanceFile && s.held[h].exclusive
    ensures InMaintenance(s, s.held[h].thread)
  {
    var t, i := s.held[h].thread, s.held[h].level;
    assert HandleOwned(s, h) && Shaped(s.threads[t]);
    assert FrameHeld(s, t, i) && FrameFits(s.threads[t], i);
  }

  /** The exclusive lock is held exactly by the thread that maintains. */
  lemma ExclusiveLockMeansMaintaining(s: State, t: ThreadId)
    requires Reachable(s) && t < |s.threads|
    ensures Maintains(s.threads[t]) <==>
      exists h :: h in s.held && s.held[h].file == MaintenanceFile && s.held[h].exclusive && s.held[h].thread == t
  {
    ReachableInv(s);
    if Maintains(s.threads[t]) {
      var h := OutermostHolds(s, t);
    }
    if h :| h in s.held && s.held[h].file == MaintenanceFile && s.held[h].exclusive && s.held[h].thread == t {
      ExclusiveHolderMaintains(s, h);
    }
  }

  /** The exclusive lock is only ever released by its own thread, at depth zero, when its last scope has ended. */
  lemma ReleasedAtDepthZero(s: State, e: Event, n: State, h: Handle)
    requires Reachable(s) && Follows(s, e, n)
    requires h in s.held && s.held[h].file == MaintenanceFile && s.held[h].exclusive && h !in n.held
    ensures s.held[h].thread == e.t && s.threads[e.t].depth == 0 && n.threads[e.t].depth == 0 &&
      n.threads[e.t].frames == []
  {
    ReachableInv(s);
    var th := s.threads[e.t];
    var last := |th.frames| - 1;
    assert FrameHeld(s, e.t, last);
    assert h in Ends(Top(th)) && Shaped(th);
    assert FrameFits(th, last);
  }

  /** A thread that asks for maintenance inside an account section can only give up: its own guard is in the way. */
  lemma MaintenanceInsideSectionGivesUp(s: State, t: ThreadId, h: Handle)
    requires Reachable(s) && t < |s.threads| && s.threads[t].phase == WantsExclusive && s.threads[t].frames != []
    ensures !Enabled(t, s.threads[t], s.held, Grant(h))
  {
    ReachableInv(s);
    if Enabled(t, s.threads[t], s.held, Grant(h)) { GrantedOutsideScopes(s, t, h); }
  }

  // ---------------------------------------------------------------- what the locks let through

  lemma {:induction false} FreshHandle(used: set<Handle>) returns (h: Handle)
    ensures forall g :: g in used ==> g < h
    decreases |used|
  {
    if used == {} {
      h := 0;
    } else {
      var g :| g in used;
      var rest := FreshHandle(used - {g});
      h := if g < rest then rest else g + 1;
      assert forall k :: k in used ==> k == g || k in used - {g};
    }
  }

  lemma ReachStep(s: State, e: Event, n: State)
    requires Reachable(s) && Follows(s, e, n)
    ensures Reachable(n)
  {
    hide Follows;
    var states, events :| Run(states, events) && states[|states| - 1] == s;
    var longer, more := states + [n], events + [e];
    forall i | 0 <= i < |more| ensures Follows(longer[i], more[i], longer[i + 1]) {
      if i < |events| { assert Follows(states[i], events[i], states[i + 1]); }
    }
    assert Run(longer, more) && longer[|longer| - 1] == n;
  }

  /** A lock on the file of an account belongs to a section of that account. */
  lemma HeldInSection(s: State, h: Handle)
    requires Inv(s) && h in s.held && s.held[h].file.AccountFile?
    ensures InSection(s, s.held[h].thread, s.held[h].level, s.held[h].file.id)
  {
    assert HandleOwned(s, h) && FrameHeld(s, s.held[h].thread, s.held[h].level);
  }

  ghost predicate NoSection(s: State, id: AccountId) { forall u, i :: !InSection(s, u, i, id) }

  /** No thread maintains, unless it is `t` itself. */
  ghost predicate NotShutOut(s: State, t: ThreadId)
    requires t < |s.threads|
  {
    Maintains(s.threads[t]) || forall u :: !InMaintenance(s, u)
  }

  /** Between the two states only thread `t` opened scopes, none of them a section or for maintenance. */
  ghost predicate OnlyEnters(s: State, t: ThreadId, n: State)
    requires t < |s.threads|
  {
    && |n.threads| == |s.threads| && (forall u :: 0 <= u < |s.threads| && u != t ==> n.threads[u] == s.threads[u])
    && s.threads[t].frames <= n.threads[t].frames && Maintains(n.threads[t]) == Maintains(s.threads[t])
  }

  /** A running thread that nobody shuts out gets as far as asking for the lock of the account. */
  lemma AsksForAccount(s: State, t: ThreadId, id: AccountId) returns (n: State)
    requires Reachable(s) && t < |s.threads| && s.threads[t].phase == Running && NotShutOut(s, t)
    ensures Reachable(n) && OnlyEnters(s, t, n) && n.threads[t].phase == WantsAccount(id)
    ensures |n.threads[t].frames| == |s.threads[t].frames| + 1 && GuardLike(Top(n.threads[t]))
  {
    ReachableInv(s);
    var th := s.threads[t];
    DepthMeansMaintaining(th);
    var begun := Stepped(s, t, Act(t, th, s.held, BeginAccount(id)));
    ReachStep(s, Event(t, BeginAccount(id)), begun);
    if th.depth > 0 {
      n := begun;
    } else {
      var h := FreshHandle(begun.held.Keys);
      NoExclusive(s);
      var wanted := begun.threads[t];
      assert Enabled(t, wanted, begun.held, Grant(h));
      n := Stepped(begun, t, Act(t, wanted, begun.held, Grant(h)));
      hide Reachable, Inv;
      ReachStep(begun, Event(t, Grant(h)), n);
    }
  }

  lemma NoExclusive(s: State)
    requires Inv(s) && forall u :: !InMaintenance(s, u)
    ensures forall h :: h in s.held && s.held[h].file == MaintenanceFile ==> !s.held[h].exclusive
  {
    forall h | h in s.held && s.held[h].file == MaintenanceFile ensures !s.held[h].exclusive {
      if s.held[h].exclusive { ExclusiveHolderMaintains(s, h); }
    }
  }

  lemma SectionFree(s: State, t: ThreadId, id: AccountId)
    requires Inv(s) && NoSection(s, id) && t < |s.threads| && s.threads[t].phase == WantsAccount(id)
    ensures Grantable(s.held, Wanted(t, s.threads[t]).value)
  {
    forall h | h in s.held ensures !Conflicting(s.held[h], Wanted(t, s.threads[t]).value) {
      if s.held[h].file == AccountFile(id) { HeldInSection(s, h); }
    }
  }

  /**
   A section can always be entered unless the account is in one already or another thread maintains: sections of other
   accounts, on the same thread or on others, are not in the way.
   */
  lemma SectionOpens(s: State, t: ThreadId, id: AccountId) returns (n: State)
    requires Reachable(s) && t < |s.threads| && s.threads[t].phase == Running
    requires NotShutOut(s, t) && NoSection(s, id)
    ensures Reachable(n) && OnlyEnters(s, t, n) && n.threads[t].phase == Running
    ensures |n.threads[t].frames| == |s.threads[t].frames| + 2
    ensures InSection(n, t, |s.threads[t].frames| + 1, id)
    ensures !n.threads[t].frames[|s.threads[t].frames|].Account?
  {
    hide Reachable, Inv, Shaped;
    var asked := AsksForAccount(s, t, id);
    ReachableInv(asked);
    assert NoSection(asked, id) by {
      forall u, i ensures !InSection(asked, u, i, id) {
        assert !InSection(s, u, i, id);
      }
    }
    SectionFree(asked, t, id);
    var h := FreshHandle(asked.held.Keys);
    var th := asked.threads[t];
    assert Enabled(t, th, asked.held, Grant(h));
    n := Stepped(asked, t, Act(t, th, asked.held, Grant(h)));
    ReachStep(asked, Event(t, Grant(h)), n);
  }

  /** A section can always be left, and the account is free for others then. */
  lemma SectionCloses(s: State, t: ThreadId, id: AccountId) returns (n: State)
    requires Reachable(s) && t < |s.threads| && s.threads[t].phase == Running
    requires |s.threads[t].frames| > 0 && InSection(s, t, |s.threads[t].frames| - 1, id)
    ensures |n.threads| == |s.threads| && forall u :: 0 <= u < |s.threads| && u != t ==> n.threads[u] == s.threads[u]
    ensures Reachable(n) && n.threads[t].phase == Running && n.threads[t].depth == s.threads[t].depth
    ensures |s.threads[t].frames| >= 2 && n.threads[t].frames == s.threads[t].frames[..|s.threads[t].frames| - 2]
  {
    ReachableInv(s);
    var th := s.threads[t];
    assert FrameFits(th, |th.frames| - 1);
    var left := Stepped(s, t, Act(t, th, s.held, Leave));
    hide Reachable, Inv;
    ReachStep(s, Event(t, Leave), left);
    n := Stepped(left, t, Act(t, left.threads[t], left.held, Unwind));
    ReachStep(left, Event(t, Unwind), n);
  }

  lemma NothingHeld(s: State)
    requires Inv(s) && forall u :: 0 <= u < |s.threads| ==> s.threads[u].frames == []
    ensures forall h :: h !in s.held
  {}

  /**
   With no scope open anywhere, a running thread can start maintenance, and once inside it can enter again at once.
   */
  lemma MaintenanceOpens(s: State, t: ThreadId) returns (n: State)
    requires Reachable(s) && t < |s.threads| && s.threads[t].phase == Running
    requires forall u :: 0 <= u < |s.threads| ==> s.threads[u].frames == []
    ensures Reachable(n) && InMaintenance(n, t) && n.threads[t].phase == Running && n.threads[t].depth == 1
    ensures Begun(n.threads[t]).phase == Running && Begun(n.threads[t]).depth == 2
  {
    ReachableInv(s);
    var th := s.threads[t];
    DepthMeansMaintaining(th);
    NothingHeld(s);
    var wants := Stepped(s, t, Act(t, th, s.held, BeginMaintenance));
    ReachStep(s, Event(t, BeginMaintenance), wants);
    hide Reachable, Inv;
    var opening := Stepped(wants, t, Act(t, wants.threads[t], wants.held, Grant(0)));
    ReachStep(wants, Event(t, Grant(0)), opening);
    n := Stepped(opening, t, Act(t, opening.threads[t], opening.held, SetDepth));
    ReachStep(opening, Event(t, SetDepth), n);
  }

  /** `n` threads, none of which has a scope open. */
  function Idle(n: nat): State { State(seq(n, _ => IDLE), map[]) }

  lemma IdleIsReachable(n: nat)
    ensures Reachable(Idle(n))
  {
    var states, events: seq<Event> := [Idle(n)], [];
    assert Run(states, events) && states[|states| - 1] == Idle(n);
  }

  /** The thread is inside a section of the account. */
  ghost predicate Inside(s: State, t: ThreadId, id: AccountId) { exists i :: InSection(s, t, i, id) }

  /** Sections of different accounts can be open at once, on one thread or on two. */
  lemma SectionsOverlap(t: ThreadId, u: ThreadId, id: AccountId, other: AccountId) returns (s: State)
    requires id != other
    ensures Reachable(s) && Inside(s, t, id) && Inside(s, u, other)
  {
    var start := Idle(t + u + 1);
    IdleIsReachable(t + u + 1);
    hide Reachable;
    assert NotShutOut(start, t) && NoSection(start, id);
    var one := SectionOpens(start, t, id);
    assert one.threads[t].frames[0] == one.threads[t].frames[|start.threads[t].frames|];
    assert NotShutOut(one, u);
    assert NoSection(one, other) by {
      forall v: ThreadId, i: nat ensures !InSection(one, v, i, other) {
        assert v != t && v < |one.threads| ==> one.threads[v] == start.threads[v];
      }
    }
    s := SectionOpens(one, u, other);
    assert InSection(s, t, 1, id);
  }
}
