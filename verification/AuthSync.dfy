/** The per-account sync requirement: marking it, and clearing it only for the snapshot that was synchronised. */
module AuthSync {
  import opened Wrappers

  const MAX_GENERATION := 0x7FFF_FFFF_FFFF_FFFF

  datatype Account = Account(id: string, title: string, profileDir: string, authJsonPath: Option<string>,
                             required: bool, generation: nat)

  datatype Error = UnknownAccount | Exhausted | InvalidAccount

  /** The exhaustion rule: at the last generation the requirement stays. */
  predicate Valid(a: Account) { a.generation <= MAX_GENERATION && (a.generation == MAX_GENERATION ==> a.required) }

  type Accounts = seq<Account>

  predicate UniqueIds(s: Accounts) { forall i, j :: 0 <= i < j < |s| ==> s[i].id != s[j].id }

  predicate ValidConfig(s: Accounts) { UniqueIds(s) && forall i :: 0 <= i < |s| ==> Valid(s[i]) }

  function Find(s: Accounts, id: string): Option<Account> {
    if |s| == 0 then None else if s[0].id == id then Some(s[0]) else Find(s[1..], id)
  }

  /** `s` with the account of the same id replaced. */
  function Replace(s: Accounts, a: Account): Accounts {
    if |s| == 0 then [] else [if s[0].id == a.id then a else s[0]] + Replace(s[1..], a)
  }

  function Without(s: Accounts, id: string): Accounts {
    if |s| == 0 then [] else (if s[0].id == id then [] else [s[0]]) + Without(s[1..], id)
  }

  function MarkIn(s: Accounts, id: string): Result<Account, Error> {
    match Find(s, id)
    case None => Err(UnknownAccount)
    case Some(a) =>
      if a.generation >= MAX_GENERATION then Err(Exhausted)
      else Ok(a.(required := true, generation := a.generation + 1))
  }

  predicate Current(a: Account, snapshot: Account) {
    a.generation == snapshot.generation && a.profileDir == snapshot.profileDir &&
      a.authJsonPath == snapshot.authJsonPath
  }

  /** The snapshot may clear: it is current, and generations are not exhausted. */
  predicate Clears(s: Accounts, snapshot: Account) {
    var found := Find(s, snapshot.id);
    found.Some? && Current(found.value, snapshot) && found.value.generation != MAX_GENERATION
  }

  function AfterMark(s: Accounts, id: string): Accounts {
    match MarkIn(s, id) case Ok(a) => Replace(s, a) case Err(_) => s
  }

  function AfterClear(s: Accounts, snapshot: Account): Accounts {
    if Valid(snapshot) && Clears(s, snapshot) then Replace(s, Find(s, snapshot.id).value.(required := false)) else s
  }

  /**
   An update keeps the requirement and its generation, starts new accounts at zero, and moves the account to the end.
   */
  function AfterUpdate(s: Accounts, id: string, title: string, profileDir: string,
      authJsonPath: Option<string>): Accounts {
    var existing := Find(s, id);
    Without(s, id) + [Account(id, title, profileDir, authJsonPath, existing.Some? && existing.value.required,
                              if existing.Some? then existing.value.generation else 0)]
  }

  /** The configuration file under its lock. */
  class ConfigFile {
    var accounts: Accounts

    constructor (accounts: Accounts)
      ensures this.accounts == accounts
    {
      this.accounts := accounts;
    }

    method MarkSyncRequired(id: string) returns (r: Result<Account, Error>)
      modifies this
      ensures r == MarkIn(old(accounts), id)
      ensures accounts == AfterMark(old(accounts), id)
    {
      var existing := Find(accounts, id);
      if existing.None? {
        return Err(UnknownAccount);
      }
      if existing.value.generation >= MAX_GENERATION {
        return Err(Exhausted);
      }
      var updated := existing.value.(required := true, generation := existing.value.generation + 1);
      accounts := Replace(accounts, updated);
      return Ok(updated);
    }

    method CompareAndClear(snapshot: Account) returns (r: Result<bool, Error>)
      requires ValidConfig(accounts)
      modifies this
      ensures r == if !Valid(snapshot) then Err(InvalidAccount) else Ok(Clears(old(accounts), snapshot))
      ensures accounts == AfterClear(old(accounts), snapshot)
    {
      if !Valid(snapshot) {
        return Err(InvalidAccount);
      }
      var existing := Find(accounts, snapshot.id);
      if existing.None? || !Current(existing.value, snapshot) {
        return Ok(false);
      }
      if existing.value.generation == MAX_GENERATION {
        return Ok(false);
      }
      if existing.value.required {
        accounts := Replace(accounts, existing.value.(required := false));
      } else {
        FindExact(accounts, snapshot.id);
        ReplaceSame(accounts, existing.value);
      }
      return Ok(true);
    }

    method Update(id: string, title: string, profileDir: string, authJsonPath: Option<string>)
      modifies this
      ensures accounts == AfterUpdate(old(accounts), id, title, profileDir, authJsonPath)
    {
      var existing := Find(accounts, id);
      var account := Account(id, title, profileDir, authJsonPath,
                             if existing.Some? then existing.value.required else false,
                             if existing.Some? then existing.value.generation else 0);
      accounts := Without(accounts, id) + [account];
    }
  }

  // ---------------------------------------------------------------- lists of accounts

  lemma {:induction false} FindExact(s: Accounts, id: string)
    ensures Find(s, id).Some? ==> Find(s, id).value in s && Find(s, id).value.id == id
    ensures Find(s, id).None? ==> forall i :: 0 <= i < |s| ==> s[i].id != id
  {
    if |s| > 0 && s[0].id != id { FindExact(s[1..], id); }
  }

  lemma {:induction false} ReplaceExact(s: Accounts, a: Account, id: string)
    ensures |Replace(s, a)| == |s| && forall i :: 0 <= i < |s| ==>
      Replace(s, a)[i] == if s[i].id == a.id then a else s[i]
    ensures Find(Replace(s, a), id) == if id == a.id && Find(s, id).Some? then Some(a) else Find(s, id)
  {
    if |s| > 0 {
      ReplaceExact(s[1..], a, id);
      assert Replace(s, a)[1..] == Replace(s[1..], a);
    }
  }

  lemma {:induction false} ReplaceSame(s: Accounts, a: Account)
    requires UniqueIds(s) && Find(s, a.id) == Some(a)
    ensures Replace(s, a) == s
  {
    ReplaceExact(s, a, a.id);
    FindExact(s, a.id);
    forall i | 0 <= i < |s| ensures Replace(s, a)[i] == s[i] {
      var k :| 0 <= k < |s| && s[k] == a;
      if i != k { assert s[i].id != s[k].id; }
    }
  }

  lemma {:induction false} WithoutExact(s: Accounts, id: string, other: string)
    ensures forall a :: a in Without(s, id) ==> a in s && a.id != id
    ensures Find(Without(s, id), other) == if other == id then None else Find(s, other)
  {
    if |s| > 0 {
      WithoutExact(s[1..], id, other);
      var rest := Without(s[1..], id);
      if s[0].id == id { assert Without(s, id) == rest; } else { assert Without(s, id)[1..] == rest; }
    }
  }

  lemma {:induction false} WithoutUnique(s: Accounts, id: string)
    requires UniqueIds(s)
    ensures UniqueIds(Without(s, id))
  {
    if |s| > 0 {
      var rest := Without(s[1..], id);
      WithoutUnique(s[1..], id);
      WithoutExact(s[1..], id, id);
      forall j | 0 <= j < |rest| ensures rest[j].id != s[0].id {
        assert rest[j] in s[1..];
        var k :| 0 <= k < |s| - 1 && s[1..][k] == rest[j];
        assert s[0].id != s[k + 1].id;
      }
    }
  }

  lemma {:induction false} FindAppend(s: Accounts, a: Account, id: string)
    ensures Find(s + [a], id) == if Find(s, id).Some? then Find(s, id) else if a.id == id then Some(a) else None
  {
    if |s| > 0 {
      assert (s + [a])[1..] == s[1..] + [a];
      FindAppend(s[1..], a, id);
    } else {
      assert (s + [a])[1..] == [];
    }
  }

  /** A mark sets the flag and moves to the next generation; it fails exactly for unknown and exhausted accounts. */
  lemma MarkExactly(s: Accounts, id: string, other: string)
    requires ValidConfig(s)
    ensures var t, existing := AfterMark(s, id), Find(s, id);
            && ValidConfig(t)
            && (other != id ==> Find(t, other) == Find(s, other))
            && (MarkIn(s, id).Ok? <==> existing.Some? && existing.value.generation < MAX_GENERATION)
            && (MarkIn(s, id).Err? ==> t == s)
            && (MarkIn(s, id).Ok? ==>
                 Find(t, id) == Some(existing.value.(required := true, generation := existing.value.generation + 1)))
  {
    FindExact(s, id);
    if MarkIn(s, id).Ok? {
      ReplaceExact(s, MarkIn(s, id).value, other);
      ReplaceExact(s, MarkIn(s, id).value, id);
    }
  }

  /** What an update does to every account. */
  lemma UpdateExact(s: Accounts, id: string, title: string, profileDir: string, authJsonPath: Option<string>,
      other: string)
    requires ValidConfig(s)
    ensures var t, existing := AfterUpdate(s, id, title, profileDir, authJsonPath), Find(s, id);
            && ValidConfig(t)
            && (other != id ==> Find(t, other) == Find(s, other))
            && Find(t, id) == Some(Account(id, title, profileDir, authJsonPath,
                                           existing.Some? && existing.value.required,
                                           if existing.Some? then existing.value.generation else 0))
  {
    var kept := Without(s, id);
    var a := AfterUpdate(s, id, title, profileDir, authJsonPath)[|kept|];
    WithoutExact(s, id, other);
    WithoutExact(s, id, id);
    WithoutUnique(s, id);
    FindAppend(kept, a, other);
    FindAppend(kept, a, id);
    FindExact(s, id);
    assert forall i :: 0 <= i < |kept| ==> kept[i] in kept;
  }

  // ---------------------------------------------------------------- runs

  /** A copy of an account that some process took, and when. */
  datatype Snapshot = Snapshot(account: Account, taken: nat)

  /**
   What any process can do, in any order and at any time: mark an account, read one, offer an earlier reading for
   clearing, or update an account. Every step runs under the configuration lock.
   */
  datatype Event = Mark(id: string) | Take(id: string) | Clear(snapshot: nat)
                 | Update(id: string, title: string, profileDir: string, authJsonPath: Option<string>)

  /** `marked` gives, for each account, the time of its last successful mark; time counts events. */
  datatype State = State(accounts: Accounts, snapshots: seq<Snapshot>, marked: map<string, nat>)

  function Next(s: State, e: Event, now: nat): State {
    match e
    case Mark(id) =>
      s.(accounts := AfterMark(s.accounts, id),
         marked := if MarkIn(s.accounts, id).Ok? then s.marked[id := now] else s.marked)
    case Take(id) =>
      if Find(s.accounts, id).None? then s
      else s.(snapshots := s.snapshots + [Snapshot(Find(s.accounts, id).value, now)])
    case Clear(k) =>
      if k < |s.snapshots| then s.(accounts := AfterClear(s.accounts, s.snapshots[k].account)) else s
    case Update(id, title, profileDir, authJsonPath) =>
      s.(accounts := AfterUpdate(s.accounts, id, title, profileDir, authJsonPath))
  }

  function Run(initial: Accounts, events: seq<Event>): State {
    if |events| == 0 then State(initial, [], map[])
    else Next(Run(initial, events[..|events| - 1]), events[|events| - 1], |events| - 1)
  }

  function GenerationOf(s: Accounts, id: string): int {
    match Find(s, id) case None => -1 case Some(a) => a.generation
  }

  predicate Required(s: Accounts, id: string) { Find(s, id).Some? && Find(s, id).value.required }

  /** Every reading is of a generation reached by then, and a reading from before a mark is of an earlier generation. */
  ghost predicate Inv(s: State, now: nat) {
    && ValidConfig(s.accounts)
    && (forall id :: id in s.marked ==> s.marked[id] < now && Find(s.accounts, id).Some?)
    && (forall k :: 0 <= k < |s.snapshots| ==> SnapshotOk(s, s.snapshots[k], now))
  }

  ghost predicate SnapshotOk(s: State, sn: Snapshot, now: nat) {
    && sn.taken < now && sn.account.generation <= GenerationOf(s.accounts, sn.account.id)
    && (sn.account.id in s.marked && sn.taken < s.marked[sn.account.id] ==>
          sn.account.generation < GenerationOf(s.accounts, sn.account.id))
    && (sn.account.id in s.marked ==> sn.taken != s.marked[sn.account.id])
  }

  /** One step on one account: how its generation and its requirement may change. */
  lemma StepFacts(s: State, e: Event, now: nat, id: string)
    requires ValidConfig(s.accounts)
    ensures ValidConfig(Next(s, e, now).accounts)
    ensures var t := Next(s, e, now);
            && GenerationOf(s.accounts, id) <= GenerationOf(t.accounts, id)
            && (e == Mark(id) && MarkIn(s.accounts, id).Ok? ==>
                  GenerationOf(t.accounts, id) == GenerationOf(s.accounts, id) + 1 && Required(t.accounts, id))
            && (Required(s.accounts, id) && !Required(t.accounts, id) ==>
                  e.Clear? && e.snapshot < |s.snapshots| &&
                  var sn := s.snapshots[e.snapshot].account;
                  sn.id == id && Clears(s.accounts, sn))
  {
    match e
    case Mark(other) =>
      if MarkIn(s.accounts, other).Ok? {
        FindExact(s.accounts, other);
        ReplaceKeeps(s.accounts, MarkIn(s.accounts, other).value, id);
      }
    case Take(_) =>
    case Clear(k) =>
      if k < |s.snapshots| && Valid(s.snapshots[k].account) && Clears(s.accounts, s.snapshots[k].account) {
        var sn := s.snapshots[k].account;
        FindExact(s.accounts, sn.id);
        ReplaceKeeps(s.accounts, Find(s.accounts, sn.id).value.(required := false), id);
      }
    case Update(other, title, profileDir, authJsonPath) =>
      UpdateExact(s.accounts, other, title, profileDir, authJsonPath, id);
  }

  lemma ReplaceKeeps(s: Accounts, a: Account, id: string)
    requires ValidConfig(s) && Valid(a) && Find(s, a.id).Some?
    ensures ValidConfig(Replace(s, a))
    ensures Find(Replace(s, a), id) == if id == a.id then Some(a) else Find(s, id)
  {
    ReplaceExact(s, a, id);
  }

  lemma StepKeepsInv(s: State, e: Event, now: nat)
    requires Inv(s, now)
    ensures Inv(Next(s, e, now), now + 1)
  {
    var t := Next(s, e, now);
    StepFacts(s, e, now, "");
    forall id | id in t.marked ensures t.marked[id] < now + 1 && Find(t.accounts, id).Some? {
      StepFacts(s, e, now, id);
    }
    forall k | 0 <= k < |t.snapshots| ensures SnapshotOk(t, t.snapshots[k], now + 1) {
      var sn := t.snapshots[k];
      StepFacts(s, e, now, sn.account.id);
      if k < |s.snapshots| {
        assert SnapshotOk(s, s.snapshots[k], now);
      } else {
        FindExact(s.accounts, e.id);
      }
    }
  }

  lemma {:induction false} RunKeepsInv(initial: Accounts, events: seq<Event>)
    requires ValidConfig(initial)
    ensures Inv(Run(initial, events), |events|)
  {
    if |events| > 0 {
      RunKeepsInv(initial, events[..|events| - 1]);
      StepKeepsInv(Run(initial, events[..|events| - 1]), events[|events| - 1], |events| - 1);
    }
  }

  /** A clear with a reading of account `id` that is current and was taken after the time `marked`. */
  ghost predicate ClearsAfter(s: State, e: Event, id: string, marked: int) {
    && e.Clear? && e.snapshot < |s.snapshots|
    && var sn := s.snapshots[e.snapshot];
       sn.account.id == id && Clears(s.accounts, sn.account) && marked < sn.taken
  }

  function LastMark(s: State, id: string): int { if id in s.marked then s.marked[id] else -1 }

  /**
   No requirement is lost in any run: the event that drops an account's flag clears with a reading of the current
   generation and the current paths, taken after the account's last mark.
   */
  lemma ClearNeedsLaterReading(initial: Accounts, events: seq<Event>, e: Event, id: string)
    requires ValidConfig(initial)
    requires Required(Run(initial, events).accounts, id) && !Required(Run(initial, events + [e]).accounts, id)
    ensures var s := Run(initial, events); ClearsAfter(s, e, id, LastMark(s, id))
  {
    var s := Run(initial, events);
    assert (events + [e])[..|events|] == events;
    RunKeepsInv(initial, events);
    StepFacts(s, e, |events|, id);
    assert SnapshotOk(s, s.snapshots[e.snapshot], |events|);
  }

  /** Whenever a marked account is found clear, some clear since its last mark used a reading taken after that mark. */
  lemma {:induction false} ClearFlagIsJustified(initial: Accounts, events: seq<Event>, id: string)
    requires ValidConfig(initial)
    requires id in Run(initial, events).marked && !Required(Run(initial, events).accounts, id)
    ensures exists j ::
      0 <= j < |events| && ClearsAfter(Run(initial, events[..j]), events[j], id, LastMark(Run(initial, events), id))
  {
    hide Next, ClearsAfter, Inv;
    var n := |events| - 1;
    var init, e := events[..n], events[n];
    var s := Run(initial, init);
    RunKeepsInv(initial, init);
    MarkTime(s, e, n, id);
    assert init + [e] == events;
    if Required(s.accounts, id) {
      ClearNeedsLaterReading(initial, init, e, id);
      assert ClearsAfter(Run(initial, events[..n]), events[n], id, LastMark(Run(initial, events), id));
    } else {
      ClearFlagIsJustified(initial, init, id);
      var j :| 0 <= j < n && ClearsAfter(Run(initial, init[..j]), init[j], id, LastMark(s, id));
      assert init[..j] == events[..j] && init[j] == events[j];
    }
  }

  // ---------------------------------------------------------------- what a mark holds off

  /** Event `j` marks the account, which is known and not at the last generation. */
  predicate MarksAt(initial: Accounts, events: seq<Event>, j: nat, id: string) {
    && j < |events| && events[j] == Mark(id)
    && var a := Find(Run(initial, events[..j]).accounts, id);
       a.Some? && a.value.generation < 0x7FFF_FFFF_FFFF_FFFF
  }

  lemma {:induction false} ReadingsStay(initial: Accounts, events: seq<Event>, j: nat)
    requires j <= |events|
    ensures Run(initial, events[..j]).snapshots <= Run(initial, events).snapshots
  {
    if j == |events| {
      assert events[..j] == events;
    } else {
      assert events[..|events| - 1][..j] == events[..j];
      ReadingsStay(initial, events[..|events| - 1], j);
    }
  }

  /** The marked account is of a later generation than before, from then on. */
  lemma MarkRaises(initial: Accounts, events: seq<Event>, j: nat, id: string)
    requires ValidConfig(initial) && MarksAt(initial, events, j, id)
    ensures GenerationOf(Run(initial, events[..j]).accounts, id) < GenerationOf(Run(initial, events).accounts, id)
  {
    var before, marked := Run(initial, events[..j]), events[..j + 1];
    RunIsValid(initial, events[..j]);
    StepFacts(before, Mark(id), j, id);
    RunStep(initial, events[..j], Mark(id));
    hide Next, Run, ValidConfig;
    assert marked == events[..j] + [Mark(id)];
    GenerationNeverFalls(initial, marked, events[j + 1..], id);
    assert marked + events[j + 1..] == events;
  }

  /** A reading from before a mark is of an earlier generation ever after. */
  lemma EarlierReadingIsOld(initial: Accounts, events: seq<Event>, j: nat, k: nat, id: string)
    requires ValidConfig(initial) && j < |events| && MarksAt(initial, events, j, id)
    requires k < |Run(initial, events[..j]).snapshots|
    ensures k < |Run(initial, events).snapshots|
    ensures Run(initial, events).snapshots[k] == Run(initial, events[..j]).snapshots[k]
    ensures var sn := Run(initial, events).snapshots[k].account;
      sn.id == id ==> sn.generation < GenerationOf(Run(initial, events).accounts, id)
  {
    hide Next, Run, MarksAt, ValidConfig, GenerationOf;
    ReadingsStay(initial, events, j);
    RunKeepsInv(initial, events[..j]);
    assert SnapshotOk(Run(initial, events[..j]), Run(initial, events[..j]).snapshots[k], j);
    MarkRaises(initial, events, j, id);
  }

  /** After a mark of an account, offering a reading of it from before the mark changes nothing, however much later. */
  lemma MarkBarsEarlierReadings(initial: Accounts, events: seq<Event>, j: nat, k: nat, id: string)
    requires ValidConfig(initial) && j < |events| && MarksAt(initial, events, j, id)
    requires k < |Run(initial, events[..j]).snapshots|
    requires Run(initial, events[..j]).snapshots[k].account.id == id
    ensures Run(initial, events + [Clear(k)]).accounts == Run(initial, events).accounts
  {
    EarlierReadingIsOld(initial, events, j, k, id);
    assert (events + [Clear(k)])[..|events|] == events;
  }

  /** Event `i` offers a reading of the account that was taken after event `j`. */
  predicate OffersLater(initial: Accounts, events: seq<Event>, j: nat, i: nat, id: string)
    requires j <= i < |events|
  {
    && events[i].Clear?
    && var s, k := Run(initial, events[..i]), events[i].snapshot;
       k >= |Run(initial, events[..j]).snapshots| && k < |s.snapshots| && s.snapshots[k].account.id == id
  }

  /**
   No mark is lost: after it, the requirement holds until a reading of the account that was taken since is offered,
   whatever else happens.
   */
  lemma {:induction false} MarkHolds(initial: Accounts, events: seq<Event>, j: nat, id: string)
    requires ValidConfig(initial) && j < |events| && MarksAt(initial, events, j, id)
    requires forall i :: j < i < |events| ==> !OffersLater(initial, events, j, i, id)
    ensures Find(Run(initial, events).accounts, id).Some? && Find(Run(initial, events).accounts, id).value.required
  {
    hide Next, Run, Find, OffersLater, MarksAt, ValidConfig;
    var n := |events| - 1;
    var init := events[..n];
    if j < n {
      assert init[..j] == events[..j];
      MarksEarlier(initial, events, j, id);
      forall i | j < i < |init| ensures !OffersLater(initial, init, j, i, id) {
        OffersEarlier(initial, events, j, i, id);
      }
      MarkHolds(initial, init, j, id);
      MarkOutlasts(initial, events, j, id);
    } else {
      MarkSets(initial, events, id);
    }
  }

  lemma MarksEarlier(initial: Accounts, events: seq<Event>, j: nat, id: string)
    requires j + 1 < |events|
    ensures MarksAt(initial, events[..|events| - 1], j, id) <==> MarksAt(initial, events, j, id)
  {
    assert events[..|events| - 1][..j] == events[..j];
  }

  lemma OffersEarlier(initial: Accounts, events: seq<Event>, j: nat, i: nat, id: string)
    requires j <= i < |events| - 1
    ensures OffersLater(initial, events[..|events| - 1], j, i, id) <==> OffersLater(initial, events, j, i, id)
  {
    assert events[..|events| - 1][..j] == events[..j] && events[..|events| - 1][..i] == events[..i];
  }

  lemma MarkSets(initial: Accounts, events: seq<Event>, id: string)
    requires ValidConfig(initial) && |events| > 0 && MarksAt(initial, events, |events| - 1, id)
    ensures Required(Run(initial, events).accounts, id)
  {
    var n := |events| - 1;
    RunIsValid(initial, events[..n]);
    StepFacts(Run(initial, events[..n]), events[n], n, id);
  }

  /** One more event leaves the requirement, unless it offers a later reading. */
  lemma MarkOutlasts(initial: Accounts, events: seq<Event>, j: nat, id: string)
    requires ValidConfig(initial) && j + 1 < |events| && MarksAt(initial, events, j, id)
    requires Required(Run(initial, events[..|events| - 1]).accounts, id)
    requires !OffersLater(initial, events, j, |events| - 1, id)
    ensures Required(Run(initial, events).accounts, id)
  {
    var n := |events| - 1;
    var init, e := events[..n], events[n];
    assert init[..j] == events[..j];
    RunIsValid(initial, init);
    MarksEarlier(initial, events, j, id);
    StepFacts(Run(initial, init), e, n, id);
    hide Next;
    if e.Clear? && e.snapshot < |Run(initial, events[..j]).snapshots| {
      EarlierReadingIsOld(initial, init, j, e.snapshot, id);
    }
  }

  /** The time of the last mark is that of the last event that marks the account. */
  lemma {:induction false} LastMarkExactly(initial: Accounts, events: seq<Event>, j: nat, id: string)
    requires j < |events| && MarksAt(initial, events, j, id)
    requires forall i: nat :: j < i < |events| ==> !MarksAt(initial, events, i, id)
    ensures id in Run(initial, events).marked && LastMark(Run(initial, events), id) == j
  {
    hide Next, Run, Find, MarksAt, LastMark;
    var n := |events| - 1;
    MarkedStep(initial, events, id);
    if j < n {
      MarksEarlier(initial, events, j, id);
      forall i: nat | j < i < n ensures !MarksAt(initial, events[..n], i, id) {
        MarksEarlier(initial, events, i, id);
      }
      LastMarkExactly(initial, events[..n], j, id);
    }
  }

  lemma MarkedStep(initial: Accounts, events: seq<Event>, id: string)
    requires |events| > 0
    ensures var s, t, n := Run(initial, events[..|events| - 1]), Run(initial, events), |events| - 1;
      && (MarksAt(initial, events, n, id) ==> id in t.marked && LastMark(t, id) == n)
      && (!MarksAt(initial, events, n, id) ==>
           (id in t.marked <==> id in s.marked) && LastMark(t, id) == LastMark(s, id))
  {}

  /** Only a mark, which sets the flag, changes the time of the last mark. */
  lemma MarkTime(s: State, e: Event, now: nat, id: string)
    requires Inv(s, now)
    ensures ValidConfig(s.accounts)
    ensures var t := Next(s, e, now);
            Required(t.accounts, id) || (LastMark(t, id) == LastMark(s, id) && (id in t.marked <==> id in s.marked))
  {
    StepFacts(s, e, now, id);
  }

  lemma ValidGeneration(s: Accounts, id: string)
    requires ValidConfig(s)
    ensures GenerationOf(s, id) <= MAX_GENERATION && (GenerationOf(s, id) == MAX_GENERATION ==> Required(s, id))
  {
    FindExact(s, id);
  }

  /** The generation never falls, and at the last generation the flag stays set for good. */
  lemma {:induction false} GenerationNeverFalls(initial: Accounts, events: seq<Event>, more: seq<Event>, id: string)
    requires ValidConfig(initial)
    ensures var s, t := Run(initial, events).accounts, Run(initial, events + more).accounts;
            && GenerationOf(s, id) <= GenerationOf(t, id) <= MAX_GENERATION
            && (GenerationOf(s, id) == MAX_GENERATION ==> GenerationOf(t, id) == MAX_GENERATION && Required(t, id))
  {
    RunKeepsInv(initial, events + more);
    var t := Run(initial, events + more);
    assert ValidConfig(t.accounts);
    ValidGeneration(t.accounts, id);
    if |more| > 0 {
      var n := |more| - 1;
      var r := Run(initial, events + more[..n]);
      assert (events + more)[..|events + more| - 1] == events + more[..n];
      assert t == Next(r, more[n], |events| + n);
      hide Next, Run, Inv, ValidConfig;
      GenerationNeverFalls(initial, events, more[..n], id);
      RunIsValid(initial, events + more[..n]);
      StepFacts(r, more[n], |events| + n, id);
    } else {
      assert events + more == events;
    }
  }

  lemma RunIsValid(initial: Accounts, events: seq<Event>)
    requires ValidConfig(initial)
    ensures ValidConfig(Run(initial, events).accounts)
  {
    RunKeepsInv(initial, events);
  }

  // ---------------------------------------------------------------- changed paths and undisturbed readings

  /** The event is an update that gives the account the two paths. */
  predicate SetsPaths(e: Event, id: string, profileDir: string, authJsonPath: Option<string>) {
    e.Update? && e.id == id && e.profileDir == profileDir && e.authJsonPath == authJsonPath
  }

  predicate HasPaths(s: Accounts, id: string, profileDir: string, authJsonPath: Option<string>) {
    Find(s, id).Some? && Find(s, id).value.profileDir == profileDir && Find(s, id).value.authJsonPath == authJsonPath
  }

  lemma {:induction false} UpdatePaths(s: Accounts, id: string, title: string, profileDir: string,
      authJsonPath: Option<string>)
    ensures HasPaths(AfterUpdate(s, id, title, profileDir, authJsonPath), id, profileDir, authJsonPath)
  {
    var kept := Without(s, id);
    WithoutExact(s, id, id);
    FindAppend(kept, AfterUpdate(s, id, title, profileDir, authJsonPath)[|kept|], id);
  }

  /** Only an update changes the paths of an account. */
  lemma PathStep(s: State, e: Event, now: nat, id: string, profileDir: string, authJsonPath: Option<string>)
    requires ValidConfig(s.accounts)
    requires !HasPaths(s.accounts, id, profileDir, authJsonPath) && !SetsPaths(e, id, profileDir, authJsonPath)
    requires Find(s.accounts, id).Some?
    ensures !HasPaths(Next(s, e, now).accounts, id, profileDir, authJsonPath)
    ensures Find(Next(s, e, now).accounts, id).Some?
  {
    match e
    case Mark(other) =>
      if MarkIn(s.accounts, other).Ok? {
        FindExact(s.accounts, other);
        ReplaceExact(s.accounts, MarkIn(s.accounts, other).value, id);
      }
    case Take(_) =>
    case Clear(k) =>
      if k < |s.snapshots| && Valid(s.snapshots[k].account) && Clears(s.accounts, s.snapshots[k].account) {
        var sn := s.snapshots[k].account;
        FindExact(s.accounts, sn.id);
        ReplaceExact(s.accounts, Find(s.accounts, sn.id).value.(required := false), id);
      }
    case Update(other, title, dir, path) =>
      UpdatePaths(s.accounts, other, title, dir, path);
      UpdateExact(s.accounts, other, title, dir, path, id);
  }

  lemma {:induction false} PathsStayChanged(initial: Accounts, events: seq<Event>, j: nat, id: string,
      profileDir: string, authJsonPath: Option<string>)
    requires ValidConfig(initial) && j < |events| && events[j].Update? && events[j].id == id
    requires forall i :: j <= i < |events| ==> !SetsPaths(events[i], id, profileDir, authJsonPath)
    ensures Find(Run(initial, events).accounts, id).Some?
    ensures !HasPaths(Run(initial, events).accounts, id, profileDir, authJsonPath)
  {
    var n := |events| - 1;
    var init, e := events[..n], events[n];
    var s := Run(initial, init);
    RunIsValid(initial, init);
    if j < n {
      PathsStayChanged(initial, init, j, id, profileDir, authJsonPath);
      hide Next, HasPaths;
      PathStep(s, e, n, id, profileDir, authJsonPath);
    } else {
      UpdatePaths(s.accounts, id, e.title, e.profileDir, e.authJsonPath);
    }
  }

  /**
   After an update that gives an account other paths than a reading has, offering that reading changes nothing, unless a
   later update restored the paths.
   */
  lemma ChangedPathsBarReading(initial: Accounts, events: seq<Event>, j: nat, k: nat)
    requires ValidConfig(initial) && j < |events| && k < |Run(initial, events).snapshots|
    requires var a := Run(initial, events).snapshots[k].account;
      && events[j].Update? && events[j].id == a.id
      && forall i :: j <= i < |events| ==> !SetsPaths(events[i], a.id, a.profileDir, a.authJsonPath)
    ensures Run(initial, events + [Clear(k)]).accounts == Run(initial, events).accounts
  {
    hide Run;
    var a := Run(initial, events).snapshots[k].account;
    RunStep(initial, events, Clear(k));
    PathsStayChanged(initial, events, j, a.id, a.profileDir, a.authJsonPath);
  }

  /** The event neither marks nor updates the account. */
  predicate LeavesAlone(e: Event, id: string) { e != Mark(id) && !(e.Update? && e.id == id) }

  /** The account as it is, but for a requirement that may have been dropped. */
  predicate SameBut(a: Account, b: Account) { b == a.(required := b.required) }

  lemma LeavesStep(s: State, e: Event, now: nat, id: string)
    requires ValidConfig(s.accounts) && LeavesAlone(e, id) && Find(s.accounts, id).Some?
    ensures var t := Next(s, e, now);
      && Find(t.accounts, id).Some? && SameBut(Find(s.accounts, id).value, Find(t.accounts, id).value)
      && s.snapshots <= t.snapshots
  {
    match e
    case Mark(other) =>
      if MarkIn(s.accounts, other).Ok? {
        FindExact(s.accounts, other);
        ReplaceExact(s.accounts, MarkIn(s.accounts, other).value, id);
      }
    case Take(_) =>
    case Clear(k) =>
      if k < |s.snapshots| && Valid(s.snapshots[k].account) && Clears(s.accounts, s.snapshots[k].account) {
        var sn := s.snapshots[k].account;
        FindExact(s.accounts, sn.id);
        ReplaceExact(s.accounts, Find(s.accounts, sn.id).value.(required := false), id);
      }
    case Update(other, title, dir, path) =>
      UpdateExact(s.accounts, other, title, dir, path, id);
  }

  lemma {:induction false} Undisturbed(initial: Accounts, events: seq<Event>, more: seq<Event>, id: string)
    requires ValidConfig(initial) && Find(Run(initial, events).accounts, id).Some?
    requires forall i :: 0 <= i < |more| ==> LeavesAlone(more[i], id)
    ensures var s, t := Run(initial, events), Run(initial, events + more);
      && Find(t.accounts, id).Some? && SameBut(Find(s.accounts, id).value, Find(t.accounts, id).value)
      && s.snapshots <= t.snapshots
  {
    hide Next, Run, Find, LeavesAlone, ValidConfig;
    if |more| == 0 {
      assert events + more == events;
    } else {
      var n := |more| - 1;
      assert events + more == (events + more[..n]) + [more[n]];
      Undisturbed(initial, events, more[..n], id);
      RunIsValid(initial, events + more[..n]);
      RunStep(initial, events + more[..n], more[n]);
      LeavesStep(Run(initial, events + more[..n]), more[n], |events| + n, id);
    }
  }

  /**
   A reading clears the requirement if the account was neither marked nor updated since, whatever else happened, and its
   generation is not the last one.
   */
  lemma UndisturbedReadingClears(initial: Accounts, events: seq<Event>, more: seq<Event>, id: string)
    requires ValidConfig(initial) && Find(Run(initial, events).accounts, id).Some?
    requires Find(Run(initial, events).accounts, id).value.generation < MAX_GENERATION
    requires forall i :: 0 <= i < |more| ==> LeavesAlone(more[i], id)
    ensures var k := |Run(initial, events).snapshots|;
      var t := Run(initial, events + [Take(id)] + more + [Clear(k)]).accounts;
      && Find(t, id).Some? && !Find(t, id).value.required
      && SameBut(Find(Run(initial, events).accounts, id).value, Find(t, id).value)
  {
    hide Next, Run, Find, SameBut, LeavesAlone, ValidConfig;
    var s, k, taken := Run(initial, events), |Run(initial, events).snapshots|, events + [Take(id)];
    var all := taken + more;
    RunStep(initial, events, Take(id));
    RunStep(initial, all, Clear(k));
    RunIsValid(initial, events);
    TakenReading(s, |events|, id);
    Undisturbed(initial, taken, more, id);
    RunIsValid(initial, all);
    CurrentClears(Run(initial, all), Find(s.accounts, id).value, k, |all|);
  }

  lemma RunStep(initial: Accounts, events: seq<Event>, e: Event)
    ensures Run(initial, events + [e]) == Next(Run(initial, events), e, |events|)
  {
    assert (events + [e])[..|events|] == events;
  }

  lemma TakenReading(s: State, now: nat, id: string)
    requires ValidConfig(s.accounts) && Find(s.accounts, id).Some?
    ensures var a, t := Find(s.accounts, id).value, Next(s, Take(id), now);
      && a.id == id && Valid(a) && t.accounts == s.accounts
      && |t.snapshots| == |s.snapshots| + 1 && t.snapshots[|s.snapshots|].account == a
  {
    FindExact(s.accounts, id);
  }

  /** A reading that differs from the account in the requirement at most clears it, below the last generation. */
  lemma CurrentClears(s: State, a: Account, k: nat, now: nat)
    requires ValidConfig(s.accounts) && Valid(a) && a.generation < MAX_GENERATION
    requires k < |s.snapshots| && s.snapshots[k].account == a
    requires Find(s.accounts, a.id).Some? && SameBut(a, Find(s.accounts, a.id).value)
    ensures var t := Next(s, Clear(k), now).accounts;
      Find(t, a.id).Some? && !Find(t, a.id).value.required && SameBut(a, Find(t, a.id).value)
  {
    ReplaceExact(s.accounts, Find(s.accounts, a.id).value.(required := false), a.id);
  }
}
