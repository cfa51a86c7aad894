/**
 * Which thread terminates a child process: the worker that started it or the thread that closes the runner.
 * Every interleaving of any number of workers and callers of close is a run.
 */
module ProcessOwnership {
  type Process = nat

  /** How far the worker of a process has come. */
  datatype Phase =
    | Started   // the process exists and is not registered yet
    | Refused   // registering found the runner closed: the worker terminates the process at once
    | Working   // serving the process, or on the way to the cleanup at the end
    | Owner     // the cleanup found the process still registered: the worker terminates it
    | Finished

  /** The fields of the runner, `active` in the order of registration. */
  datatype Shared = Shared(closed: bool, active: seq<Process>)

  /**
   * The whole system. `batch` holds the processes close has taken and not terminated yet, `calls` counts the
   * terminations begun, and `stranded` are those close never came to because terminating an earlier one raised.
   */
  datatype State = State(shared: Shared, workers: map<Process, Phase>, batch: seq<Process>, calls: multiset<Process>,
      stranded: set<Process>)

  // ---------------------------------------------------------------- the three critical sections

  function Without(s: seq<Process>, p: Process): (r: seq<Process>)
    ensures multiset(r) == multiset(s)[p := 0]
  {
    if |s| == 0 then []
    else
      assert s == [s[0]] + s[1..];
      if s[0] == p then Without(s[1..], p) else [s[0]] + Without(s[1..], p)
  }

  function Registered(s: Shared, p: Process): Shared {
    if s.closed || p in s.active then s else s.(active := s.active + [p])
  }

  function Released(s: Shared, p: Process): Shared { s.(active := Without(s.active, p)) }

  function Emptied(s: Shared): Shared { if s.closed then s else Shared(true, []) }

  class Runner {
    var closed: bool
    var active: seq<Process>

    function Now(): Shared
      reads this
    {
      Shared(closed, active)
    }

    constructor ()
      ensures Now() == Shared(false, [])
    {
      closed, active := false, [];
    }

    method Register(p: Process) returns (cancelled: bool)
      modifies this
      ensures Now() == Registered(old(Now()), p)
      ensures cancelled == old(closed)
      ensures !cancelled ==> p in active
    {
      cancelled := closed;
      if !cancelled && p !in active {
        active := active + [p];
      }
    }

    method Release(p: Process) returns (owned: bool)
      modifies this
      ensures Now() == Released(old(Now()), p)
      ensures owned == (p in old(active)) && p !in active
    {
      owned := p in active;
      active := Without(active, p);
      assert multiset(active)[p] == 0;
    }

    /** `raising` are the processes whose termination raises; `calls` lists the terminations begun. */
    method Close(raising: set<Process>) returns (calls: seq<Process>)
      modifies this
      ensures Now() == Emptied(old(Now()))
      ensures old(closed) ==> calls == []
      ensures !old(closed) ==> calls <= old(active)
      ensures !old(closed) ==> calls == old(active) || (calls != [] && calls[|calls| - 1] in raising)
      ensures forall i :: 0 <= i < |calls| - 1 ==> calls[i] !in raising
    {
      calls := [];
      if closed { return; }
      closed := true;
      var batch := active;
      active := [];
      var i := 0;
      while i < |batch|
        invariant 0 <= i <= |batch|
        invariant calls == batch[..i]
        invariant forall k :: 0 <= k < i ==> calls[k] !in raising
      {
        calls := calls + [batch[i]];
        if batch[i] in raising { return; }
        i := i + 1;
      }
    }
  }

  // ---------------------------------------------------------------- runs

  datatype Event =
    | Start(p: Process)
    | Register(p: Process)
    | Release(p: Process)
    | Terminate(p: Process, raises: bool)
    | Close
    | CloseTerminates(raises: bool)

  const INITIAL := State(Shared(false, []), map[], [], multiset{}, {})

  predicate In(s: State, p: Process, phase: Phase) { p in s.workers && s.workers[p] == phase }

  predicate Enabled(s: State, e: Event) {
    match e
    case Start(p) => p !in s.workers
    case Register(p) => In(s, p, Started)
    case Release(p) => In(s, p, Working)
    case Terminate(p, _) => In(s, p, Refused) || In(s, p, Owner)
    case Close => true
    case CloseTerminates(_) => |s.batch| > 0
  }

  function Elements(s: seq<Process>): set<Process> { set p | p in s }

  /** A refused worker whose termination raises still passes through the cleanup at the end. */
  function Next(s: State, e: Event): State
    requires Enabled(s, e)
  {
    match e
    case Start(p) => s.(workers := s.workers[p := Started])
    case Register(p) =>
      s.(shared := Registered(s.shared, p), workers := s.workers[p := if s.shared.closed then Refused else Working])
    case Release(p) =>
      s.(shared := Released(s.shared, p), workers := s.workers[p := if p in s.shared.active then Owner else Finished])
    case Terminate(p, raises) =>
      var after := if s.workers[p] == Refused && raises then Working else Finished;
      s.(workers := s.workers[p := after], calls := s.calls + multiset{p})
    case Close => s.(shared := Emptied(s.shared), batch := if s.shared.closed then s.batch else s.shared.active)
    case CloseTerminates(raises) =>
      var taken := s.(calls := s.calls + multiset{s.batch[0]});
      if raises then taken.(batch := [], stranded := s.stranded + Elements(s.batch[1..]))
      else taken.(batch := s.batch[1..])
  }

  ghost predicate Follows(s: State, e: Event, t: State) { Enabled(s, e) && t == Next(s, e) }

  /** The states a sequence of events passes through; the first is INITIAL. */
  ghost predicate Run(states: seq<State>, events: seq<Event>) {
    && |states| == |events| + 1
    && states[0] == INITIAL
    && forall i :: 0 <= i < |events| ==> Follows(states[i], events[i], states[i + 1])
  }

  ghost predicate Reachable(s: State) {
    exists states, events :: Run(states, events) && states[|states| - 1] == s
  }

  // ---------------------------------------------------------------- one owner

  function One(b: bool): nat { if b then 1 else 0 }

  /** How many parties are bound to terminate `p`, or to hand it on to one that is. */
  function Claims(s: State, p: Process): nat {
    multiset(s.shared.active)[p] + multiset(s.batch)[p] + One(In(s, p, Started) || In(s, p, Refused) || In(s, p, Owner))
  }

  /** A started process has one claim on it, or has been terminated once, or was stranded. */
  predicate Conserved(s: State, p: Process) {
    Claims(s, p) + s.calls[p] + One(p in s.stranded) == One(p in s.workers)
  }

  predicate Consistent(s: State) {
    && (s.shared.closed ==> s.shared.active == [])
    && (!s.shared.closed ==> s.batch == [] && s.stranded == {})
    && (forall p :: p in s.shared.active ==> In(s, p, Working))
  }

  ghost predicate Inv(s: State) {
    Consistent(s) && forall p :: Conserved(s, p)
  }

  lemma RegisteredCounts(s: Shared, p: Process, q: Process)
    requires p !in s.active
    ensures multiset(Registered(s, p).active)[q] == multiset(s.active)[q] + One(q == p && !s.closed)
  {}

  lemma StartKeeps(s: State, p: Process)
    requires Inv(s) && p !in s.workers
    ensures Inv(Next(s, Start(p)))
  {
    var t := Next(s, Start(p));
    forall q ensures Conserved(t, q) { assert Conserved(s, q); }
  }

  lemma RegisterKeeps(s: State, p: Process)
    requires Inv(s) && In(s, p, Started)
    ensures Inv(Next(s, Register(p)))
  {
    var t := Next(s, Register(p));
    assert p !in s.shared.active;
    forall q ensures Conserved(t, q) {
      assert Conserved(s, q);
      RegisteredCounts(s.shared, p, q);
    }
  }

  lemma ReleaseKeeps(s: State, p: Process)
    requires Inv(s) && In(s, p, Working)
    ensures Inv(Next(s, Release(p)))
  {
    var t := Next(s, Release(p));
    assert Conserved(s, p);
    forall q ensures Conserved(t, q) { assert Conserved(s, q); }
    forall q | q in t.shared.active ensures In(t, q, Working) {
      assert multiset(t.shared.active)[q] > 0;
      assert q != p && q in s.shared.active;
    }
  }

  lemma TerminateKeeps(s: State, p: Process, raises: bool)
    requires Inv(s) && (In(s, p, Refused) || In(s, p, Owner))
    ensures Inv(Next(s, Terminate(p, raises)))
  {
    var t := Next(s, Terminate(p, raises));
    forall q ensures Conserved(t, q) { assert Conserved(s, q); }
  }

  lemma CloseKeeps(s: State)
    requires Inv(s)
    ensures Inv(Next(s, Close))
  {
    var t := Next(s, Close);
    forall q ensures Conserved(t, q) { assert Conserved(s, q); }
  }

  lemma CloseTerminatesKeeps(s: State, raises: bool)
    requires Inv(s) && |s.batch| > 0
    ensures Inv(Next(s, CloseTerminates(raises)))
  {
    var t := Next(s, CloseTerminates(raises));
    var first, rest := s.batch[0], s.batch[1..];
    assert s.batch == [first] + rest;
    forall q ensures Conserved(t, q) {
      assert Conserved(s, q);
      assert multiset(s.batch)[q] == One(q == first) + multiset(rest)[q];
      assert multiset(rest)[q] <= 1;
      assert q in Elements(rest) <==> multiset(rest)[q] == 1;
    }
  }

  /** No event breaks the ownership of any process. */
  lemma EventKeeps(s: State, e: Event)
    requires Inv(s) && Enabled(s, e)
    ensures Inv(Next(s, e))
  {
    hide Inv, Next;
    match e
    case Start(p) => StartKeeps(s, p);
    case Register(p) => RegisterKeeps(s, p);
    case Release(p) => ReleaseKeeps(s, p);
    case Terminate(p, raises) => TerminateKeeps(s, p, raises);
    case Close => CloseKeeps(s);
    case CloseTerminates(raises) => CloseTerminatesKeeps(s, raises);
  }

  lemma {:induction false} RunKeeps(states: seq<State>, events: seq<Event>, n: nat)
    requires Run(states, events) && n < |states|
    ensures Inv(states[n])
  {
    if n > 0 {
      RunKeeps(states, events, n - 1);
      EventKeeps(states[n - 1], events[n - 1]);
    }
  }

  // ---------------------------------------------------------------- main results

  ghost predicate Quiescent(s: State) {
    s.batch == [] && forall p :: p in s.workers ==> s.workers[p] == Finished
  }

  /**
   In every reachable state each started process has one claim, or one termination, or neither because it was stranded.
   */
  lemma OneOwner(s: State, p: Process)
    requires Reachable(s)
    ensures Conserved(s, p)
    ensures s.calls[p] <= 1
    ensures s.shared.closed ==> s.shared.active == []
  {
    var states, events :| Run(states, events) && states[|states| - 1] == s;
    RunKeeps(states, events, |states| - 1);
  }

  /** When all threads are done, every process has been terminated exactly once, except those close gave up. */
  lemma TerminatedExactlyOnce(s: State, p: Process)
    requires Reachable(s) && Quiescent(s) && p in s.workers
    ensures s.calls[p] == One(p !in s.stranded)
    ensures p !in s.shared.active
  {
    var states, events :| Run(states, events) && states[|states| - 1] == s;
    RunKeeps(states, events, |states| - 1);
    assert Conserved(s, p);
    assert !In(s, p, Working);
    assert multiset(s.shared.active)[p] == 0;
  }

  /** Close gives processes up exactly when a termination of its batch raises while others still wait. */
  ghost predicate CutShort(states: seq<State>, events: seq<Event>, n: nat)
    requires |states| == |events| + 1 && n < |states|
  {
    exists i :: 0 <= i < n && events[i] == CloseTerminates(true) && |states[i].batch| > 1
  }

  lemma StrandsStep(s: State, e: Event, t: State)
    requires Follows(s, e, t)
    ensures t.stranded == {} <==> s.stranded == {} && !(e == CloseTerminates(true) && |s.batch| > 1)
  {
    if e == CloseTerminates(true) && |s.batch| > 1 {
      assert s.batch[1..][0] in Elements(s.batch[1..]);
    }
  }

  lemma {:induction false} StrandedExactlyWhenCutShort(states: seq<State>, events: seq<Event>, n: nat)
    requires Run(states, events) && n < |states|
    ensures states[n].stranded == {} <==> !CutShort(states, events, n)
  {
    hide Follows;
    if n > 0 {
      StrandedExactlyWhenCutShort(states, events, n - 1);
      StrandsStep(states[n - 1], events[n - 1], states[n]);
    }
  }

  /** If no termination begun by close raises, every process that was ever started is terminated exactly once. */
  lemma CleanCloseTerminatesAll(states: seq<State>, events: seq<Event>, p: Process)
    requires Run(states, events) && CloseTerminates(true) !in events
    requires Quiescent(states[|events|]) && p in states[|events|].workers
    ensures states[|events|].calls[p] == 1
  {
    StrandedExactlyWhenCutShort(states, events, |events|);
    TerminatedExactlyOnce(states[|events|], p);
  }

  lemma StartsReachable()
    ensures Reachable(INITIAL)
  {
    assert Run([INITIAL], []);
  }

  lemma ReachesNext(s: State, e: Event)
    requires Reachable(s) && Enabled(s, e)
    ensures Reachable(Next(s, e))
  {
    var t := Next(s, e);
    assert Follows(s, e, t);
    hide Follows, Enabled, Next;
    var states, events :| Run(states, events) && states[|states| - 1] == s;
    var longer, more := states + [t], events + [e];
    forall i | 0 <= i < |more| ensures Follows(longer[i], more[i], longer[i + 1]) {
      if i < |events| { assert Follows(states[i], events[i], states[i + 1]); }
    }
    assert Run(longer, more) && longer[|longer| - 1] == t;
  }

  /** Two registered processes. */
  lemma TwoServed()
    ensures Reachable(State(Shared(false, [0, 1]), map[0 := Working, 1 := Working], [], multiset{}, {}))
  {
    hide Reachable;
    StartsReachable();
    var one := State(Shared(false, []), map[0 := Started], [], multiset{}, {});
    var served := State(Shared(false, [0]), map[0 := Working], [], multiset{}, {});
    var two := State(Shared(false, [0]), map[0 := Working, 1 := Started], [], multiset{}, {});
    ReachesNext(INITIAL, Start(0));
    assert Next(INITIAL, Start(0)) == one;
    ReachesNext(one, Register(0));
    assert Next(one, Register(0)) == served;
    ReachesNext(served, Start(1));
    assert Next(served, Start(1)) == two;
    ReachesNext(two, Register(1));
    assert two.shared.active + [1] == [0, 1];
    assert Registered(two.shared, 1) == Shared(false, [0, 1]);
    assert two.workers[1 := Working] == map[0 := Working, 1 := Working];
  }

  /** When the termination of the first of two processes raises inside close, the second is never terminated. */
  lemma RaisingCloseStrands()
    ensures exists s :: Reachable(s) && Quiescent(s) && 1 in s.workers && s.calls[1] == 0
  {
    var served := State(Shared(false, [0, 1]), map[0 := Working, 1 := Working], [], multiset{}, {});
    assert Reachable(served) by { TwoServed(); }
    var s1 := Next(served, Close);
    var s2 := Next(s1, CloseTerminates(true));
    var s3 := Next(s2, Release(0));
    var s4 := Next(s3, Release(1));
    assert Reachable(s4) by {
      hide Reachable;
      ReachesNext(served, Close);
      ReachesNext(s1, CloseTerminates(true));
      ReachesNext(s2, Release(0));
      ReachesNext(s3, Release(1));
    }
    assert Quiescent(s4) && s4.calls[1] == 0;
  }
}
