/**
 * The tests of the quorum on the fields of the windows: when the latest sample counts as a restart of a window, as a
 * step backwards, or as progress, and what becomes of the batch then.
 */
module Restarts {
  import opened Wrappers
  import opened Quorum

  // ---------------------------------------------------------------- two readings of one window

  /** Instants closer than this are not told apart: the number of the five seconds an instant lies in. */
  function Slot(x: real): int { (x / 5.0).Floor }

  predicate SameLength(p: Window, c: Window) { p.duration.Some? && p.duration == c.duration }

  predicate BothUsed(p: Window, c: Window) { p.used.Some? && c.used.Some? }

  predicate Fell(p: Window, c: Window) { BothUsed(p, c) && c.used.value < p.used.value }

  predicate Level(p: Window, c: Window) { BothUsed(p, c) && c.used.value == p.used.value }

  /** Usage rose by at most one percent, or not at all. */
  predicate Crept(p: Window, c: Window) { BothUsed(p, c) && p.used.value <= c.used.value <= p.used.value + 1.0 }

  predicate CountsDown(w: Window) { w.duration.Some? && w.resetAfter.Some? && w.resetAfter.value >= 0.0 }

  /** The countdown rose to within 30 seconds of the full length. */
  predicate CountdownJumps(p: Window, c: Window) {
    && SameLength(p, c) && p.resetAfter.Some? && c.resetAfter.Some?
    && p.resetAfter.value < c.resetAfter.value && c.duration.value <= c.resetAfter.value + 30.0
  }

  predicate BothScheduled(p: Window, c: Window) { p.resetAt.Some? && c.resetAt.Some? }

  /** The scheduled reset moved to a later five seconds. */
  predicate ScheduleMoves(p: Window, c: Window) {
    SameLength(p, c) && BothScheduled(p, c) && Slot(p.resetAt.value) < Slot(c.resetAt.value)
  }

  /** Two readings that count down tell nothing apart but their length; others are told apart by the scheduled reset. */
  predicate SameCycle(p: Window, c: Window) {
    if CountsDown(p) || CountsDown(c) then
      CountsDown(p) && CountsDown(c) && Slot(p.duration.value) == Slot(c.duration.value)
    else (p.resetAt.None? && c.resetAt.None?) || (BothScheduled(p, c) && Slot(p.resetAt.value) == Slot(c.resetAt.value))
  }

  // ---------------------------------------------------------------- restarts

  /** A window that restarts by its countdown. */
  predicate StartsByCountdown(p: Window, c: Window) { (Fell(p, c) || Level(p, c)) && CountdownJumps(p, c) }

  /** A window that does not stand against a restart by countdown. */
  predicate FitsCountdown(p: Window, c: Window) {
    || (p.used.None? && c.used.None?)
    || Level(p, c)
    || StartsByCountdown(p, c)
    || (Crept(p, c) && SameLength(p, c) && SameCycle(p, c))
  }

  /** A window that restarts by its scheduled reset. */
  predicate StartsBySchedule(p: Window, c: Window) { (Fell(p, c) || Level(p, c)) && ScheduleMoves(p, c) }

  predicate FitsSchedule(p: Window, c: Window) {
    || (p.used.None? && c.used.None?)
    || StartsBySchedule(p, c)
    || (Crept(p, c) && SameLength(p, c) && (BothScheduled(p, c) ==> Slot(p.resetAt.value) == Slot(c.resetAt.value)))
  }

  predicate Both(p: Option<Window>, c: Option<Window>) { p.Some? && c.Some? }

  predicate Neither(p: Option<Window>, c: Option<Window>) { p.None? && c.None? }

  /** The window is absent from both samples, or in both it does not stand against a restart by countdown. */
  predicate CountdownFits(p: Option<Window>, c: Option<Window>) {
    Neither(p, c) || (Both(p, c) && FitsCountdown(p.value, c.value))
  }

  predicate CountdownStarts(p: Option<Window>, c: Option<Window>) { Both(p, c) && StartsByCountdown(p.value, c.value) }

  predicate ScheduleFits(p: Option<Window>, c: Option<Window>) {
    Neither(p, c) || (Both(p, c) && FitsSchedule(p.value, c.value))
  }

  predicate ScheduleStarts(p: Option<Window>, c: Option<Window>) { Both(p, c) && StartsBySchedule(p.value, c.value) }

  predicate RestartsByCountdown(p: Payload, c: Payload) {
    && (forall k: nat :: k < 2 ==> CountdownFits(WindowOf(p, k), WindowOf(c, k)))
    && (exists k: nat :: k < 2 && CountdownStarts(WindowOf(p, k), WindowOf(c, k)))
  }

  predicate RestartsBySchedule(p: Payload, c: Payload) {
    && (forall k: nat :: k < 2 ==> ScheduleFits(WindowOf(p, k), WindowOf(c, k)))
    && (exists k: nat :: k < 2 && ScheduleStarts(WindowOf(p, k), WindowOf(c, k)))
  }

  /** The sample `c` shows the same account as `p` after the restart of a window. */
  predicate Restarts(p: Payload, c: Payload) {
    p.identity == c.identity && (RestartsByCountdown(p, c) || RestartsBySchedule(p, c))
  }

  lemma CountdownVerdict(p: Option<Window>, c: Option<Window>)
    ensures RelativeVerdict(p, c) != Refutes <==> CountdownFits(p, c)
    ensures RelativeVerdict(p, c) == Confirms <==> CountdownStarts(p, c)
  {}

  lemma ScheduleVerdict(p: Option<Window>, c: Option<Window>)
    ensures AbsoluteVerdict(p, c) != Refutes <==> ScheduleFits(p, c)
    ensures AbsoluteVerdict(p, c) == Confirms <==> ScheduleStarts(p, c)
  {}

  /** The restart test is exactly the one on the fields. */
  lemma RestartExactly(payloads: seq<Payload>, best: Signature)
    requires Share(payloads, best) > 0
    ensures LatestIsReset(payloads, best) <==>
      SignatureOf(payloads[|payloads| - 1]) != best && Restarts(NewestOf(payloads, best), payloads[|payloads| - 1])
  {
    var latest, p := payloads[|payloads| - 1], NewestOf(payloads, best);
    hide RelativeVerdict, AbsoluteVerdict, SignatureOf, CountdownFits, ScheduleFits, CountdownStarts, ScheduleStarts,
      WindowOf, Positions;
    forall k: nat | k < 2
      ensures RelativeVerdict(WindowOf(p, k), WindowOf(latest, k)) != Refutes <==>
        CountdownFits(WindowOf(p, k), WindowOf(latest, k))
      ensures RelativeVerdict(WindowOf(p, k), WindowOf(latest, k)) == Confirms <==>
        CountdownStarts(WindowOf(p, k), WindowOf(latest, k))
      ensures AbsoluteVerdict(WindowOf(p, k), WindowOf(latest, k)) != Refutes <==>
        ScheduleFits(WindowOf(p, k), WindowOf(latest, k))
      ensures AbsoluteVerdict(WindowOf(p, k), WindowOf(latest, k)) == Confirms <==>
        ScheduleStarts(WindowOf(p, k), WindowOf(latest, k))
    {
      CountdownVerdict(WindowOf(p, k), WindowOf(latest, k));
      ScheduleVerdict(WindowOf(p, k), WindowOf(latest, k));
    }
  }

  // ---------------------------------------------------------------- steps backwards

  /** The countdown is within 30 seconds of the full length, and not within 30 seconds of its end. */
  predicate Begun(w: Window) {
    CountsDown(w) && 0.0 < w.duration.value <= w.resetAfter.value + 30.0 && w.resetAfter.value > 30.0
  }

  /** The window shows an earlier reset, a lower usage in a window of the same length, or a countdown begun anew. */
  predicate StepsBack(p: Window, c: Window) {
    || (CountsDown(p) && CountsDown(c) && Slot(c.duration.value) < Slot(p.duration.value))
    || (!CountsDown(p) && !CountsDown(c) && BothScheduled(p, c) && Slot(c.resetAt.value) < Slot(p.resetAt.value))
    || (SameLength(p, c) && Fell(p, c))
    || (Begun(c) && !Begun(p))
  }

  predicate StepsBackAt(payloads: seq<Payload>, i: nat, k: nat)
    requires 0 < i < |payloads|
  {
    Both(WindowOf(payloads[i - 1], k), WindowOf(payloads[i], k)) &&
      StepsBack(WindowOf(payloads[i - 1], k).value, WindowOf(payloads[i], k).value)
  }

  predicate AnyStepBack(payloads: seq<Payload>) {
    exists i, k: nat :: 0 < i < |payloads| && k < 2 && StepsBackAt(payloads, i, k)
  }

  lemma StepBackPair(p: Option<Window>, c: Option<Window>)
    ensures PairRegresses(SignatureOfWindow(p), SignatureOfWindow(c)) <==> Both(p, c) && StepsBack(p.value, c.value)
  {}

  lemma PartIsWindow(p: Payload, k: nat)
    requires k < 2
    ensures Part(SignatureOf(p), k) == SignatureOfWindow(WindowOf(p, k))
  {}

  lemma StepBackExactly(payloads: seq<Payload>, i: nat, k: nat)
    requires 0 < i < |payloads| && k < 2
    ensures PairRegresses(Part(SignatureOf(payloads[i - 1]), k), Part(SignatureOf(payloads[i]), k)) <==>
      StepsBackAt(payloads, i, k)
  {
    hide PairRegresses, StepsBack, SignatureOf, SignatureOfWindow, WindowOf, Part;
    PartIsWindow(payloads[i - 1], k);
    PartIsWindow(payloads[i], k);
    StepBackPair(WindowOf(payloads[i - 1], k), WindowOf(payloads[i], k));
  }

  lemma RegressesExactly(payloads: seq<Payload>)
    ensures Regresses(payloads) <==> AnyStepBack(payloads)
  {
    hide PairRegresses, StepsBackAt, SignatureOf, Part;
    if Regresses(payloads) {
      var i, k: nat :| 0 < i < |payloads| && k < 2 &&
        PairRegresses(Part(SignatureOf(payloads[i - 1]), k), Part(SignatureOf(payloads[i]), k));
      StepBackExactly(payloads, i, k);
    }
    if AnyStepBack(payloads) {
      var i, k: nat :| 0 < i < |payloads| && k < 2 && StepsBackAt(payloads, i, k);
      StepBackExactly(payloads, i, k);
    }
  }

  // ---------------------------------------------------------------- progress

  predicate HasCycle(w: Window) { CountsDown(w) || w.resetAt.Some? }

  /** In every sample the window has the length and the cycle of the first sample, and a usage. */
  predicate OneCycle(payloads: seq<Payload>, k: nat) {
    forall i :: 0 <= i < |payloads| ==>
      && Both(WindowOf(payloads[0], k), WindowOf(payloads[i], k))
      && var p, c := WindowOf(payloads[0], k).value, WindowOf(payloads[i], k).value;
         c.used.Some? && HasCycle(c) && c.duration == p.duration && SameCycle(p, c)
  }

  /** Usage of the window never falls, and never rises by more than `most` if that is given. */
  predicate Climbs(payloads: seq<Payload>, k: nat, most: Option<real>)
    requires OneCycle(payloads, k)
  {
    forall i :: 0 < i < |payloads| ==>
      var p, c := WindowOf(payloads[i - 1], k).value.used.value, WindowOf(payloads[i], k).value.used.value;
      p <= c && (most.Some? ==> c <= p + most.value)
  }

  predicate NoWindow(payloads: seq<Payload>, k: nat) {
    forall i :: 0 <= i < |payloads| ==> WindowOf(payloads[i], k).None?
  }

  predicate OneAccount(payloads: seq<Payload>) {
    forall i :: 0 <= i < |payloads| ==> payloads[i].identity == payloads[0].identity
  }

  /** The samples show one account whose windows climb in one cycle each, and some window at all. */
  predicate Climbing(payloads: seq<Payload>, most: Option<real>) {
    && OneAccount(payloads)
    && (forall k: nat :: k < 2 ==> NoWindow(payloads, k) || (OneCycle(payloads, k) && Climbs(payloads, k, most)))
    && (exists k: nat :: k < 2 && !NoWindow(payloads, k))
  }

  lemma OneCyclePair(p: Option<Window>, c: Option<Window>)
    ensures var s, t := SignatureOfWindow(p), SignatureOfWindow(c);
      (&& t.Some? && s.Some? && t.value.used.Some? && t.value.reset.Some?
       && t.value.duration == s.value.duration && t.value.reset == s.value.reset) <==>
      (Both(p, c) && c.value.used.Some? && HasCycle(c.value) && c.value.duration == p.value.duration &&
        SameCycle(p.value, c.value))
  {}

  lemma OneCycleExactly(payloads: seq<Payload>, k: nat)
    requires k < 2
    ensures StableWindow(payloads, k) <==> OneCycle(payloads, k)
  {
    hide SignatureOfWindow, HasCycle, SameCycle;
    forall i | 0 <= i < |payloads| { OneCyclePair(WindowOf(payloads[0], k), WindowOf(payloads[i], k)); }
  }

  lemma ProgressesExactly(payloads: seq<Payload>, most: Option<real>)
    ensures Progresses(payloads, most) <==> Climbing(payloads, most)
  {
    hide SignatureOf, OneCycle, StableWindow;
    forall k: nat | k < 2
      ensures Absent(payloads, k) <==> NoWindow(payloads, k)
      ensures StableWindow(payloads, k) <==> OneCycle(payloads, k)
      ensures StableWindow(payloads, k) ==> (Steps(payloads, k, most) <==> Climbs(payloads, k, most))
    {
      OneCycleExactly(payloads, k);
    }
  }

  // ---------------------------------------------------------------- groups and durations

  /** The countdown is within 30 seconds of its end. */
  predicate Ending(w: Window) { CountsDown(w) && w.duration.value > 0.0 && w.resetAfter.value <= 30.0 }

  predicate SameView(p: Option<Window>, c: Option<Window>) {
    || Neither(p, c)
    || (Both(p, c) && p.value.duration == c.value.duration && p.value.used == c.value.used
        && SameCycle(p.value, c.value) && Begun(p.value) == Begun(c.value) && Ending(p.value) == Ending(c.value))
  }

  /** The samples agree in everything they are grouped by. */
  predicate SameViews(p: Payload, c: Payload) {
    p.identity == c.identity && SameView(WindowOf(p, 0), WindowOf(c, 0)) && SameView(WindowOf(p, 1), WindowOf(c, 1))
  }

  lemma SameViewExactly(p: Option<Window>, c: Option<Window>)
    ensures SignatureOfWindow(p) == SignatureOfWindow(c) <==> SameView(p, c)
  {}

  /** Samples are grouped together exactly if they agree in identity, lengths, usages, cycles and phases. */
  lemma GroupedExactly(p: Payload, c: Payload)
    ensures SignatureOf(p) == SignatureOf(c) <==> SameViews(p, c)
  {
    hide SignatureOfWindow, SameView, WindowOf;
    SameViewExactly(WindowOf(p, 0), WindowOf(c, 0));
    SameViewExactly(WindowOf(p, 1), WindowOf(c, 1));
  }

  /** The window has one of the two lengths and a percentage. */
  predicate Supported(w: Option<Window>) {
    w.Some? && w.value.duration in {Some(18000.0), Some(604800.0)} && w.value.used.Some? &&
      0.0 <= w.value.used.value <= 100.0
  }

  predicate Shows(p: Payload, d: real) {
    exists k: nat :: k < 2 && Supported(WindowOf(p, k)) && WindowOf(p, k).value.duration == Some(d)
  }

  lemma DurationsExactly(p: Payload, d: real)
    ensures d in SupportedDurations(p) <==> Shows(p, d)
    ensures Completeness(SignatureOf(p)) ==
      (if Supported(WindowOf(p, 0)) then 1 else 0) + (if Supported(WindowOf(p, 1)) then 1 else 0)
  {
    hide WindowOf;
    assert d in WindowDuration(WindowOf(p, 0)) <==>
      Supported(WindowOf(p, 0)) && WindowOf(p, 0).value.duration == Some(d);
    assert d in WindowDuration(WindowOf(p, 1)) <==>
      Supported(WindowOf(p, 1)) && WindowOf(p, 1).value.duration == Some(d);
  }

  lemma {:induction false} ObservedExactly(payloads: seq<Payload>, id: Identity, d: real)
    ensures d in ObservedDurations(payloads, id) <==>
      exists i :: 0 <= i < |payloads| && payloads[i].identity == id && d in SupportedDurations(payloads[i])
  {
    hide SupportedDurations;
    if |payloads| > 0 {
      var n := |payloads| - 1;
      ObservedExactly(payloads[..n], id, d);
      if d in ObservedDurations(payloads[..n], id) {
        var i :| 0 <= i < n && payloads[..n][i].identity == id && d in SupportedDurations(payloads[..n][i]);
        assert payloads[i].identity == id;
      }
      if i :| 0 <= i < |payloads| && payloads[i].identity == id && d in SupportedDurations(payloads[i]) {
        if i < n { assert payloads[..n][i] == payloads[i]; }
      }
    }
  }

  /** A sample of the same identity shows a length that the best one does not. */
  predicate ShowsMore(payloads: seq<Payload>, best: Payload) {
    exists i :: 0 <= i < |payloads| && payloads[i].identity == best.identity &&
      !(SupportedDurations(payloads[i]) <= SupportedDurations(best))
  }

  /**
   Lengths conflict exactly if some sample of the account shows one that the best sample does not, or the best sample
   shows both and the latest one just one of them.
   */
  lemma PartialWindowsExactly(payloads: seq<Payload>, best: Payload)
    requires |payloads| > 0
    ensures var latest := payloads[|payloads| - 1];
      ConflictingPartialWindows(payloads, best) <==>
        ShowsMore(payloads, best) ||
        (SupportedDurations(best) == SUPPORTED_SECONDS && latest.identity == best.identity &&
          |SupportedDurations(latest)| == 1)
  {
    var latest, seen := payloads[|payloads| - 1], ObservedDurations(payloads, best.identity);
    DurationsSupported(payloads, best.identity, best);
    DurationsSupported(payloads, best.identity, latest);
    hide SupportedDurations, ObservedDurations;
    var db, dl := SupportedDurations(best), SupportedDurations(latest);
    SubsetOfTwo(db);
    SubsetOfTwo(dl);
    assert ShowsMore(payloads, best) <==> !(seen <= db) by { SeenMore(payloads, best); }
    if seen <= db {
      assert db + seen == db;
    } else if |db + seen| <= |db| {
      NoGrowth(db, seen);
    }
  }

  lemma NotWithin(a: set<real>, b: set<real>) returns (d: real)
    requires !(a <= b)
    ensures d in a && d !in b
  {
    assert (forall d :: d in a ==> d in b) ==> a <= b;
    d :| d in a && d !in b;
  }

  lemma SeenMore(payloads: seq<Payload>, best: Payload)
    ensures ShowsMore(payloads, best) <==> !(ObservedDurations(payloads, best.identity) <= SupportedDurations(best))
  {
    hide SupportedDurations, ObservedDurations;
    if !(ObservedDurations(payloads, best.identity) <= SupportedDurations(best)) {
      var d := NotWithin(ObservedDurations(payloads, best.identity), SupportedDurations(best));
      ObservedExactly(payloads, best.identity, d);
    }
    if ShowsMore(payloads, best) {
      var i :| 0 <= i < |payloads| && payloads[i].identity == best.identity &&
        !(SupportedDurations(payloads[i]) <= SupportedDurations(best));
      var d := NotWithin(SupportedDurations(payloads[i]), SupportedDurations(best));
      ObservedExactly(payloads, best.identity, d);
    }
  }

  // ---------------------------------------------------------------- the first tests

  /** The samples differ in whether they have main limits, or in a flag of these. */
  predicate FlagsDiffer(p: Payload, q: Payload) {
    p.main.Limits? != q.main.Limits? ||
      (p.main.Limits? && q.main.Limits? && (p.main.allowed != q.main.allowed || p.main.reached != q.main.reached))
  }

  predicate AnyFlagsDiffer(payloads: seq<Payload>) {
    exists i :: 0 <= i < |payloads| && FlagsDiffer(payloads[i], payloads[0])
  }

  predicate AnyMalformed(payloads: seq<Payload>) {
    exists i :: 0 <= i < |payloads| && (payloads[i].main.MalformedLimits? || payloads[i].spark.MalformedSpark?)
  }

  /** Position `i` holds the first Spark limits of the list. */
  predicate FirstSpark(items: seq<SparkItem>, i: nat) {
    i < |items| && items[i].SparkItem? && forall j :: 0 <= j < i ==> items[j].OtherItem?
  }

  predicate NoSparkLimits(items: seq<SparkItem>) { forall i :: 0 <= i < |items| ==> items[i].OtherItem? }

  predicate SameSparkLimits(v: Limits, w: Limits) {
    if v.Limits? && w.Limits? then
      && v.allowed == w.allowed && v.reached == w.reached
      && SameView(v.primary, w.primary) && SameView(v.secondary, w.secondary)
    else !v.Limits? && !w.Limits?
  }

  lemma {:induction false} SparkOfItems(items: seq<SparkItem>, i: nat)
    requires FirstSpark(items, i)
    ensures SignatureOfItems(items) == SignatureOfItems([items[i]])
  {
    if i > 0 { SparkOfItems(items[1..], i - 1); }
  }

  lemma {:induction false} NoSparkOfItems(items: seq<SparkItem>)
    requires NoSparkLimits(items)
    ensures SignatureOfItems(items) == SparkAbsent
  {
    if |items| > 0 { NoSparkOfItems(items[1..]); }
  }

  /**
   Spark limits agree exactly if their first entries do, in flags, lengths, usages, cycles and phases, or neither list
   has one.
   */
  lemma SparkExactly(v: seq<SparkItem>, w: seq<SparkItem>, i: nat, j: nat)
    requires |v| > 0 && |w| > 0
    ensures FirstSpark(v, i) && FirstSpark(w, j) ==>
      (SignatureOfSpark(SparkItems(v)) == SignatureOfSpark(SparkItems(w)) <==>
        SameSparkLimits(v[i].limits, w[j].limits))
    ensures NoSparkLimits(v) && NoSparkLimits(w) ==>
      SignatureOfSpark(SparkItems(v)) == SignatureOfSpark(SparkItems(w))
    ensures NoSparkLimits(v) && FirstSpark(w, j) ==>
      SignatureOfSpark(SparkItems(v)) != SignatureOfSpark(SparkItems(w))
  {
    if FirstSpark(v, i) { SparkOfItems(v, i); }
    if FirstSpark(w, j) { SparkOfItems(w, j); }
    if NoSparkLimits(v) { NoSparkOfItems(v); }
    if NoSparkLimits(w) { NoSparkOfItems(w); }
    if FirstSpark(v, i) && FirstSpark(w, j) && v[i].limits.Limits? && w[j].limits.Limits? {
      SameViewExactly(v[i].limits.primary, w[j].limits.primary);
      SameViewExactly(v[i].limits.secondary, w[j].limits.secondary);
    }
    hide SignatureOfWindow, SameView;
  }

  /** Additional limits can be missing, null, no list, an empty list, or a list of limits. */
  function SparkKind(s: Spark): nat {
    match s
    case NoSpark => 0
    case NullSpark => 1
    case MalformedSpark => 2
    case SparkItems(items) => if items == [] then 3 else 4
  }

  lemma {:induction false} ItemsKind(items: seq<SparkItem>)
    ensures SignatureOfItems(items) !in {SparkMissing, SparkNull, SparkBad, SparkEmpty}
  {
    if |items| > 0 { ItemsKind(items[1..]); }
  }

  /** Additional limits of different kinds never agree, and those of one kind always do unless they list limits. */
  lemma SparkKindsExactly(v: Spark, w: Spark)
    ensures SparkKind(v) != SparkKind(w) ==> SignatureOfSpark(v) != SignatureOfSpark(w)
    ensures SparkKind(v) == SparkKind(w) < 4 ==> SignatureOfSpark(v) == SignatureOfSpark(w)
  {
    if v.SparkItems? { ItemsKind(v.items); }
    if w.SparkItems? { ItemsKind(w.items); }
  }

  lemma FlagsExactly(payloads: seq<Payload>)
    ensures AgreeOnFlags(payloads) <==> !AnyFlagsDiffer(payloads)
    ensures payloads == [] ==> !AnyFlagsDiffer(payloads)
  {
    forall i | 0 <= i < |payloads|
      ensures SameMainFlags(payloads[i], payloads[0]) <==> !FlagsDiffer(payloads[i], payloads[0])
    {}
    hide SameMainFlags, FlagsDiffer;
  }

  /** Which batches the first tests reject, on the fields of the samples, and in which order. */
  lemma FirstTests(payloads: seq<Payload>)
    ensures Select(payloads) == Err(EmptyBatch) <==> payloads == []
    ensures Select(payloads) == Err(InconsistentFlags) <==> AnyFlagsDiffer(payloads)
    ensures Select(payloads) in {Err(MalformedMain), Err(MalformedAdditional)} <==>
      !AnyFlagsDiffer(payloads) && AnyMalformed(payloads)
  {
    hide ConflictingPartialWindows, BestSignature, Regresses, LatestIsReset, Progresses, ProgressesBeyond, SignatureOf,
      Merged, AgreeOnFlags, AnyFlagsDiffer, AgreeOnSpark, Positions, Share;
    FlagsExactly(payloads);
  }

  // ---------------------------------------------------------------- what becomes of a batch

  /** The batch passes the tests on flags, structure, lengths and Spark limits. */
  predicate Comparable(payloads: seq<Payload>) {
    && |payloads| > 0 && AgreeOnFlags(payloads) && WellFormed(payloads) && AgreeOnSpark(payloads)
    && !ConflictingPartialWindows(payloads, FirstOf(payloads, BestSignature(payloads)))
  }

  predicate NotBehind(stable: Option<Window>, latest: Option<Window>) {
    Neither(stable, latest) || (Both(stable, latest) && BothUsed(stable.value, latest.value) &&
      stable.value.used.value <= latest.value.used.value)
  }

  predicate AheadOf(stable: Option<Window>, latest: Option<Window>) {
    Both(stable, latest) && BothUsed(stable.value, latest.value) && stable.value.used.value < latest.value.used.value
  }

  /** No window of the latest sample is behind, and some window is ahead. */
  predicate Overtakes(stable: Payload, latest: Payload) {
    && (forall k: nat :: k < 2 ==> NotBehind(WindowOf(stable, k), WindowOf(latest, k)))
    && (exists k: nat :: k < 2 && AheadOf(WindowOf(stable, k), WindowOf(latest, k)))
  }

  lemma ComparedUsed(latest: Option<Window>, stable: Option<Window>)
    ensures CompareUsed(latest, stable) != Incomparable <==> NotBehind(stable, latest)
    ensures CompareUsed(latest, stable) == Ahead <==> AheadOf(stable, latest)
  {}

  lemma BeyondExactly(payloads: seq<Payload>, stable: Payload)
    requires |payloads| > 0
    ensures ProgressesBeyond(payloads, stable) <==>
      Climbing(payloads, None) && Overtakes(stable, payloads[|payloads| - 1])
  {
    var latest := payloads[|payloads| - 1];
    ProgressesExactly(payloads, None);
    hide Progresses, Climbing, CompareUsed, NotBehind, AheadOf, WindowOf;
    forall k: nat | k < 2 { ComparedUsed(WindowOf(latest, k), WindowOf(stable, k)); }
  }

  /**
   What becomes of a batch that passes the first tests, on the fields of its samples: a restart is returned; otherwise a
   step backwards ends it unless the latest sample is in the best group, and then the majority and the progress decide.
   */
  lemma SelectionOnFields(payloads: seq<Payload>)
    requires Comparable(payloads)
    ensures var best, latest := BestSignature(payloads), payloads[|payloads| - 1];
      var first, newest := FirstOf(payloads, best), NewestOf(payloads, best);
      var apart := !SameViews(newest, latest);
      Select(payloads) ==
        if apart && Restarts(newest, latest) then Ok(latest)
        else if apart && AnyStepBack(payloads) then Err(InconsistentLimits)
        else if Share(payloads, best) * 2 <= |payloads| then
          if Climbing(payloads, Some(1.0)) then Ok(latest) else Err(InconsistentLimits)
        else if Climbing(payloads, None) && Overtakes(first, latest) then Ok(latest)
        else Ok(first.(dynamic := Merged(first.dynamic, newest.dynamic)))
  {
    var best, latest := BestSignature(payloads), payloads[|payloads| - 1];
    RestartExactly(payloads, best);
    RegressesExactly(payloads);
    ProgressesExactly(payloads, Some(1.0));
    BeyondExactly(payloads, FirstOf(payloads, best));
    GroupedExactly(NewestOf(payloads, best), latest);
    hide Restarts, AnyStepBack, Climbing, Overtakes, SameViews, SignatureOf, LatestIsReset, Regresses, Progresses,
      ProgressesBeyond, BestSignature, ConflictingPartialWindows, AgreeOnFlags, AgreeOnSpark, Share, Positions, FirstOf,
      NewestOf, Merged;
  }

  // ---------------------------------------------------------------- rewinds

  lemma SelectedIsComparable(payloads: seq<Payload>)
    requires Select(payloads).Ok?
    ensures Comparable(payloads)
  {
    hide ConflictingPartialWindows, BestSignature, Regresses, LatestIsReset, Progresses, ProgressesBeyond, SignatureOf,
      Merged, AgreeOnFlags, AgreeOnSpark, Positions;
  }

  lemma {:induction false} ClimbsUpTo(payloads: seq<Payload>, k: nat, most: Option<real>, i: nat, n: nat)
    requires i <= n < |payloads| && OneCycle(payloads, k) && Climbs(payloads, k, most)
    ensures WindowOf(payloads[i], k).value.used.value <= WindowOf(payloads[n], k).value.used.value
  {
    hide HasCycle, SameCycle, WindowOf;
    if i < n { ClimbsUpTo(payloads, k, most, i, n - 1); }
  }

  /** In a climbing batch no sample is above the latest. */
  lemma ClimbingIsNoFall(payloads: seq<Payload>, k: nat, most: Option<real>, p: Payload)
    requires |payloads| > 0 && k < 2 && Climbing(payloads, most) && p in payloads
    requires Both(WindowOf(p, k), WindowOf(payloads[|payloads| - 1], k))
    ensures !Fell(WindowOf(p, k).value, WindowOf(payloads[|payloads| - 1], k).value)
  {
    hide HasCycle, SameCycle, WindowOf, Climbs, OneCycle;
    var i :| 0 <= i < |payloads| && payloads[i] == p;
    assert !NoWindow(payloads, k);
    ClimbsUpTo(payloads, k, most, i, |payloads| - 1);
  }

  /** What a restart with a lower usage shows. */
  lemma FallRestarts(p: Payload, c: Payload, k: nat)
    requires k < 2 && Restarts(p, c) && Both(WindowOf(p, k), WindowOf(c, k))
    requires Fell(WindowOf(p, k).value, WindowOf(c, k).value)
    ensures var v, w := WindowOf(p, k).value, WindowOf(c, k).value; CountdownJumps(v, w) || ScheduleMoves(v, w)
  {
    hide WindowOf, CountdownJumps, ScheduleMoves, SameCycle;
    assert RestartsByCountdown(p, c) ==> CountdownFits(WindowOf(p, k), WindowOf(c, k));
    assert RestartsBySchedule(p, c) ==> ScheduleFits(WindowOf(p, k), WindowOf(c, k));
  }

  lemma FellHasOtherLimits(first: Payload, newest: Payload, latest: Payload, k: nat)
    requires SignatureOf(first) == SignatureOf(newest) && k < 2
    requires Both(WindowOf(newest, k), WindowOf(latest, k)) &&
      Fell(WindowOf(newest, k).value, WindowOf(latest, k).value)
    ensures first.main != latest.main
  {
    SameSignatureSameReadings(first, newest);
  }

  /** The latest sample is returned with a lower usage only as a restart. */
  lemma RewindRestarts(payloads: seq<Payload>, k: nat)
    requires |payloads| > 0 && Select(payloads) == Ok(payloads[|payloads| - 1]) && k < 2
    requires var p, c :=
      WindowOf(NewestOf(payloads, BestSignature(payloads)), k), WindowOf(payloads[|payloads| - 1], k);
      Both(p, c) && Fell(p.value, c.value)
    ensures Restarts(NewestOf(payloads, BestSignature(payloads)), payloads[|payloads| - 1])
  {
    var best, latest := BestSignature(payloads), payloads[|payloads| - 1];
    var newest, first := NewestOf(payloads, best), FirstOf(payloads, best);
    SelectedIsComparable(payloads);
    SelectionOnFields(payloads);
    FellHasOtherLimits(first, newest, latest, k);
    hide Select, Comparable, BestSignature, Share, SignatureOf, SameViews, Climbing, Restarts, FirstOf, NewestOf;
    if !Restarts(newest, latest) {
      if Climbing(payloads, Some(1.0)) { ClimbingIsNoFall(payloads, k, Some(1.0), newest); }
      if Climbing(payloads, None) { ClimbingIsNoFall(payloads, k, None, newest); }
    }
  }

  /**
   A latest sample whose usage is below that of the newest sample of the best group is returned only if the window is as
   long as before, and its countdown rose to within 30 seconds of the full length, or its scheduled reset lies in a
   later five seconds.
   */
  lemma RewindNeedsRestart(payloads: seq<Payload>, k: nat)
    requires |payloads| > 0 && Select(payloads) == Ok(payloads[|payloads| - 1]) && k < 2
    requires var p, c :=
      WindowOf(NewestOf(payloads, BestSignature(payloads)), k), WindowOf(payloads[|payloads| - 1], k);
      p.Some? && c.Some? && p.value.used.Some? && c.value.used.Some? && c.value.used.value < p.value.used.value
    ensures var p := WindowOf(NewestOf(payloads, BestSignature(payloads)), k).value;
      var c := WindowOf(payloads[|payloads| - 1], k).value;
      && p.duration.Some? && c.duration == p.duration
      && ((p.resetAfter.Some? && c.resetAfter.Some? && p.resetAfter.value < c.resetAfter.value
           && c.duration.value - 30.0 <= c.resetAfter.value)
          || (p.resetAt.Some? && c.resetAt.Some?
              && (p.resetAt.value / 5.0).Floor < (c.resetAt.value / 5.0).Floor))
  {
    var newest, latest := NewestOf(payloads, BestSignature(payloads)), payloads[|payloads| - 1];
    RewindRestarts(payloads, k);
    hide Select, BestSignature, Share, NewestOf, WindowOf, Restarts;
    FallRestarts(newest, latest, k);
  }

  /** The window is absent from both samples, as it was, or risen by at most one percent in the same cycle. */
  predicate Unshaken(p: Option<Window>, c: Option<Window>) {
    || Neither(p, c)
    || (Both(p, c) && (Level(p.value, c.value) ||
          (Crept(p.value, c.value) && SameLength(p.value, c.value) && SameCycle(p.value, c.value))))
  }

  /** The same where the schedule counts: lengths are equal, and no scheduled reset moved. */
  predicate UnshakenSchedule(p: Option<Window>, c: Option<Window>) {
    || Neither(p, c)
    || (Both(p, c) && Crept(p.value, c.value) && SameLength(p.value, c.value) &&
          (BothScheduled(p.value, c.value) ==> Slot(p.value.resetAt.value) == Slot(c.value.resetAt.value)))
  }

  /**
   A restart is accepted: if the batch passes the first tests and the latest sample lies outside the best group, one
   window restarted by its countdown or by its schedule, and the other one is as it was or risen by at most one percent
   in its cycle, then the latest sample is returned, whatever the majority says.
   */
  lemma RestartAccepted(payloads: seq<Payload>, k: nat)
    requires Comparable(payloads) && k < 2
    requires var p, c := NewestOf(payloads, BestSignature(payloads)), payloads[|payloads| - 1];
      && p.identity == c.identity && !SameViews(p, c)
      && ((CountdownStarts(WindowOf(p, k), WindowOf(c, k)) && Unshaken(WindowOf(p, 1 - k), WindowOf(c, 1 - k)))
          || (ScheduleStarts(WindowOf(p, k), WindowOf(c, k)) &&
            UnshakenSchedule(WindowOf(p, 1 - k), WindowOf(c, 1 - k))))
    ensures Select(payloads) == Ok(payloads[|payloads| - 1])
  {
    var p, c := NewestOf(payloads, BestSignature(payloads)), payloads[|payloads| - 1];
    SelectionOnFields(payloads);
    hide Select, Comparable, BestSignature, Share, NewestOf, SameViews, Climbing, WindowOf, SameCycle, CountdownJumps,
      ScheduleMoves;
    assert k == 0 || k == 1;
    forall j: nat | j < 2
      ensures CountdownStarts(WindowOf(p, k), WindowOf(c, k)) && Unshaken(WindowOf(p, 1 - k), WindowOf(c, 1 - k)) ==>
        CountdownFits(WindowOf(p, j), WindowOf(c, j))
      ensures ScheduleStarts(WindowOf(p, k), WindowOf(c, k)) && UnshakenSchedule(WindowOf(p, 1 - k), WindowOf(c, 1 - k))
        ==> ScheduleFits(WindowOf(p, j), WindowOf(c, j))
    {
      assert j == k || j == 1 - k;
    }
  }

  // ---------------------------------------------------------------- small batches

  lemma PairBest(a: Payload, c: Payload)
    requires SignatureOf(a) != SignatureOf(c)
    requires Completeness(SignatureOf(a)) == 1 && Completeness(SignatureOf(c)) == 1
    ensures var batch := [a, a, c];
      && BestSignature(batch) == SignatureOf(a) && Share(batch, SignatureOf(a)) == 2
      && FirstOf(batch, SignatureOf(a)) == NewestOf(batch, SignatureOf(a)) == a
  {
    var s, t := SignatureOf(a), SignatureOf(c);
    RestartPositions(a, c);
    hide SignatureOf, Completeness, SignaturesOf;
    PositionsStep([], a, t);
    PositionsStep([a], a, t);
    PositionsStep([a, a], c, t);
    assert Positions([], t) == [];
    assert [] + [a] == [a] && [a] + [a] == [a, a] && [a, a] + [c] == [a, a, c];
    hide Positions;
    var none: seq<Signature> := [];
    assert [s, t][..1] == [s] && [s][..0] == none && Valued(none) == none;
    assert Valued([s]) == none + [s];
    assert Valued([s, t]) == [s] + [t];
  }

  lemma SingleComparable(used: real, after: real)
    requires 0.0 <= used <= 100.0
    ensures var a, c := SingleWindow(5.0, 100.0), SingleWindow(used, after);
      SignatureOf(a) != SignatureOf(c) ==> Comparable([a, a, c]) && Share([a, a, c], BestSignature([a, a, c])) == 2
  {
    var a, c := SingleWindow(5.0, 100.0), SingleWindow(used, after);
    if SignatureOf(a) != SignatureOf(c) {
      PairBest(a, c);
      PlainBatch(a, a, c);
      RestartObservedTwice(a, a, c);
      hide BestSignature, Share, FirstOf, NewestOf, AgreeOnFlags, AgreeOnSpark, ObservedDurations, Positions;
      assert !ConflictingPartialWindows([a, a, c], a);
    }
  }

  /** A stale reading at 3 percent after two at 5 percent is no reset while the countdown is nowhere near its start. */
  lemma StaleReadingRejected()
    ensures var a, c := SingleWindow(5.0, 100.0), SingleWindow(3.0, 101.0);
      Select([a, a, c]) == Err(InconsistentLimits)
  {
    var a, c := SingleWindow(5.0, 100.0), SingleWindow(3.0, 101.0);
    PairBest(a, c);
    SingleComparable(3.0, 101.0);
    SelectionOnFields([a, a, c]);
    hide Select, Comparable, BestSignature, Share, FirstOf, NewestOf, Climbing, Overtakes;
    assert !Restarts(a, c);
    assert StepsBackAt([a, a, c], 2, 0);
  }

  /** With the countdown back at its start, the same reading is returned. */
  lemma RestartedReadingReturned()
    ensures var a, c := SingleWindow(5.0, 100.0), SingleWindow(3.0, 17990.0); Select([a, a, c]) == Ok(c)
  {
    var a, c := SingleWindow(5.0, 100.0), SingleWindow(3.0, 17990.0);
    PairBest(a, c);
    SingleComparable(3.0, 17990.0);
    hide Select, Comparable, BestSignature, Share, FirstOf, NewestOf;
    RestartAccepted([a, a, c], 0);
  }
}
