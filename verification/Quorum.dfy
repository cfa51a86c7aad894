/**
 Choosing one answer from several samples of the same remote usage counter.

 A payload is its identity, its main limits, its Spark limits and its dynamic top-level values. Window fields hold what
 `_signature_number` accepts: a finite number or nothing.
 */
module Quorum {
  import BackendIdentity
  import opened Wrappers

  const SUPPORTED_SECONDS: set<real> := {18000.0, 604800.0}
  const RESET_BUCKET_SECONDS := 5.0
  const TRANSITION_MARGIN_SECONDS := 30.0
  const PROGRESSIVE_STEP_PERCENT := 1.0

  type Identity = BackendIdentity.Identity

  datatype Window = Window(duration: Option<real>, used: Option<real>, resetAfter: Option<real>, resetAt: Option<real>)
  datatype Flag = NullFlag | BoolFlag(value: bool) | InvalidFlag(kind: string, text: string)
  datatype Limits = NoLimits | MalformedLimits
                  | Limits(allowed: Flag, reached: Flag, primary: Option<Window>, secondary: Option<Window>)
  datatype SparkItem = OtherItem | SparkItem(limits: Limits)
  datatype Spark = NoSpark | NullSpark | MalformedSpark | SparkItems(items: seq<SparkItem>)
  datatype Json = Null | Value(id: int)
  datatype Payload = Payload(identity: Identity, main: Limits, spark: Spark, dynamic: map<string, Json>)

  // ---------------------------------------------------------------- signatures

  datatype ResetId = After(bucket: int) | At(bucket: int)
  datatype Phase = NoPhase | NearReset | FreshWindow
  datatype WindowSignature = WindowSignature(duration: Option<real>, used: Option<real>, reset: Option<ResetId>,
      phase: Phase)
  datatype Signature = Signature(identity: Identity, primary: Option<WindowSignature>,
      secondary: Option<WindowSignature>)

  function Bucket(x: real): int { (x / RESET_BUCKET_SECONDS).Floor }

  function ResetIdentity(w: Window): Option<ResetId> {
    if w.duration.Some? && w.resetAfter.Some? && w.resetAfter.value >= 0.0 then Some(After(Bucket(w.duration.value)))
    else if w.resetAt.Some? then Some(At(Bucket(w.resetAt.value)))
    else None
  }

  function ResetPhase(w: Window): Phase {
    if w.duration.None? || w.resetAfter.None? || w.duration.value <= 0.0 || w.resetAfter.value < 0.0 then NoPhase
    else if w.resetAfter.value <= TRANSITION_MARGIN_SECONDS then NearReset
    else if w.resetAfter.value >= w.duration.value - TRANSITION_MARGIN_SECONDS then FreshWindow
    else NoPhase
  }

  function SignatureOfWindow(w: Option<Window>): Option<WindowSignature> {
    if w.None? then None
    else Some(WindowSignature(w.value.duration, w.value.used, ResetIdentity(w.value), ResetPhase(w.value)))
  }

  /** The primary window for k = 0, the secondary one for k = 1. */
  function WindowOf(p: Payload, k: nat): Option<Window> {
    if !p.main.Limits? then None else if k == 0 then p.main.primary else p.main.secondary
  }

  function SignatureOf(p: Payload): Signature {
    Signature(p.identity, SignatureOfWindow(WindowOf(p, 0)), SignatureOfWindow(WindowOf(p, 1)))
  }

  function Part(s: Signature, k: nat): Option<WindowSignature> { if k == 0 then s.primary else s.secondary }

  predicate InPercentRange(used: Option<real>) { used.Some? && 0.0 <= used.value <= 100.0 }

  predicate CompletePart(w: Option<WindowSignature>) {
    w.Some? && w.value.duration.Some? && w.value.duration.value in SUPPORTED_SECONDS && InPercentRange(w.value.used)
  }

  function Completeness(s: Signature): nat {
    (if CompletePart(s.primary) then 1 else 0) + (if CompletePart(s.secondary) then 1 else 0)
  }

  function WindowDuration(w: Option<Window>): set<real> {
    if w.Some? && w.value.duration.Some? && w.value.duration.value in SUPPORTED_SECONDS && InPercentRange(w.value.used)
    then {w.value.duration.value} else {}
  }

  function SupportedDurations(p: Payload): set<real> { WindowDuration(WindowOf(p, 0)) + WindowDuration(WindowOf(p, 1)) }

  // ---------------------------------------------------------------- groups

  /** The positions of the samples with signature `s`, in sampling order. */
  function Positions(payloads: seq<Payload>, s: Signature): seq<nat> {
    if |payloads| == 0 then []
    else
      var n := |payloads| - 1;
      Positions(payloads[..n], s) + (if SignatureOf(payloads[n]) == s then [n] else [])
  }

  lemma {:induction false} PositionsExact(payloads: seq<Payload>, s: Signature)
    ensures forall i :: 0 <= i < |Positions(payloads, s)| ==>
      Positions(payloads, s)[i] < |payloads| && SignatureOf(payloads[Positions(payloads, s)[i]]) == s
    ensures forall m :: 0 <= m < |payloads| && SignatureOf(payloads[m]) == s ==> m in Positions(payloads, s)
    ensures |Positions(payloads, s)| <= |payloads|
  {
    hide SignatureOf;
    if |payloads| > 0 {
      PositionsExact(payloads[..|payloads| - 1], s);
    }
  }

  /** How many samples have signature `s`. */
  function Share(payloads: seq<Payload>, s: Signature): nat { |Positions(payloads, s)| }

  predicate Occurs(payloads: seq<Payload>, s: Signature) {
    exists m :: 0 <= m < |payloads| && SignatureOf(payloads[m]) == s
  }

  lemma OccursIsShare(payloads: seq<Payload>, s: Signature)
    ensures Occurs(payloads, s) <==> Share(payloads, s) > 0
  {
    PositionsExact(payloads, s);
    hide SignatureOf, Positions;
    if Share(payloads, s) > 0 {
      assert SignatureOf(payloads[Positions(payloads, s)[0]]) == s;
    }
  }

  /**
   The different signatures in the order of their first sample: the keys of the groups, as a dictionary keeps them.
   */
  function SignaturesOf(payloads: seq<Payload>): seq<Signature> {
    if |payloads| == 0 then []
    else
      var n := |payloads| - 1;
      var rest, s := SignaturesOf(payloads[..n]), SignatureOf(payloads[n]);
      if s in rest then rest else rest + [s]
  }

  lemma {:induction false} SignaturesExact(payloads: seq<Payload>, s: Signature)
    ensures s in SignaturesOf(payloads) <==> Occurs(payloads, s)
    ensures |payloads| > 0 ==> |SignaturesOf(payloads)| > 0
  {
    hide SignatureOf;
    if |payloads| > 0 {
      var n := |payloads| - 1;
      SignaturesExact(payloads[..n], s);
      if Occurs(payloads[..n], s) {
        var m :| 0 <= m < n && SignatureOf(payloads[..n][m]) == s;
        assert SignatureOf(payloads[m]) == s;
      }
      if Occurs(payloads, s) {
        var m :| 0 <= m < |payloads| && SignatureOf(payloads[m]) == s;
        assert m < n ==> SignatureOf(payloads[..n][m]) == s;
      }
    }
  }

  method GroupBySignature(payloads: seq<Payload>) returns (order: seq<Signature>, groups: map<Signature, seq<nat>>)
    ensures order == SignaturesOf(payloads)
    ensures forall s :: s in groups <==> s in order
    ensures forall s :: s in groups ==> groups[s] == Positions(payloads, s)
  {
    order, groups := [], map[];
    for index := 0 to |payloads|
      invariant order == SignaturesOf(payloads[..index])
      invariant forall s :: s in groups <==> s in order
      invariant forall s :: s in groups ==> groups[s] == Positions(payloads[..index], s)
    {
      hide SignatureOf;
      assert payloads[..index + 1][..index] == payloads[..index];
      var s := SignatureOf(payloads[index]);
      if s !in groups {
        NoPositions(payloads[..index], s);
        order, groups := order + [s], groups[s := []];
      }
      groups := groups[s := groups[s] + [index]];
    }
    assert payloads[..|payloads|] == payloads;
  }

  lemma NoPositions(payloads: seq<Payload>, s: Signature)
    requires s !in SignaturesOf(payloads)
    ensures Positions(payloads, s) == []
  {
    SignaturesExact(payloads, s);
    OccursIsShare(payloads, s);
  }

  /** The order in which `max` ranks groups: completeness, then size, then the earlier first sample. */
  predicate Outranks(payloads: seq<Payload>, s: Signature, t: Signature) {
    var p, q := Positions(payloads, s), Positions(payloads, t);
    || Completeness(s) > Completeness(t)
    || (Completeness(s) == Completeness(t) && |p| > |q|)
    || (Completeness(s) == Completeness(t) && |p| == |q| > 0 && p[0] < q[0])
  }

  /** Which of the first `n` candidates `max` keeps. */
  function BestIndex(payloads: seq<Payload>, candidates: seq<Signature>, n: nat): (k: nat)
    requires 0 < n <= |candidates|
    ensures k < n
  {
    if n == 1 then 0
    else
      var k := BestIndex(payloads, candidates, n - 1);
      if Outranks(payloads, candidates[n - 1], candidates[k]) then n - 1 else k
  }

  function BestOf(payloads: seq<Payload>, candidates: seq<Signature>): Signature
    requires |candidates| > 0
  {
    candidates[BestIndex(payloads, candidates, |candidates|)]
  }

  /** The signatures with at least one supported window. */
  function Valued(order: seq<Signature>): seq<Signature> {
    if |order| == 0 then []
    else
      var n := |order| - 1;
      Valued(order[..n]) + (if Completeness(order[n]) > 0 then [order[n]] else [])
  }

  lemma {:induction false} ValuedExact(order: seq<Signature>, s: Signature)
    ensures s in Valued(order) <==> s in order && Completeness(s) > 0
  {
    hide Completeness;
    if |order| > 0 {
      var n := |order| - 1;
      ValuedExact(order[..n], s);
      assert s in order <==> s in order[..n] || s == order[n];
    }
  }

  function Candidates(order: seq<Signature>): seq<Signature> {
    var valued := Valued(order);
    if |valued| > 0 then valued else order
  }

  function BestSignature(payloads: seq<Payload>): (best: Signature)
    requires |payloads| > 0
    ensures Share(payloads, best) > 0
  {
    SignaturesExact(payloads, SignatureOf(payloads[0]));
    var candidates := Candidates(SignaturesOf(payloads));
    CandidateOccurs(payloads, BestIndex(payloads, candidates, |candidates|));
    BestOf(payloads, candidates)
  }

  lemma CandidateOccurs(payloads: seq<Payload>, i: nat)
    requires i < |Candidates(SignaturesOf(payloads))|
    ensures Share(payloads, Candidates(SignaturesOf(payloads))[i]) > 0
  {
    hide Valued, Share, Occurs, SignaturesOf;
    var order := SignaturesOf(payloads);
    var s := Candidates(order)[i];
    ValuedExact(order, s);
    SignaturesExact(payloads, s);
    OccursIsShare(payloads, s);
  }

  lemma {:induction false} BestIndexMaximal(payloads: seq<Payload>, candidates: seq<Signature>, n: nat, k: nat)
    requires k < n <= |candidates| && (forall i :: 0 <= i < |candidates| ==> Share(payloads, candidates[i]) > 0)
    ensures var best := candidates[BestIndex(payloads, candidates, n)];
            candidates[k] == best || Outranks(payloads, best, candidates[k])
  {
    if n > 1 {
      hide Completeness, SignatureOf, Positions, Share, Outranks;
      var rest, last := candidates[BestIndex(payloads, candidates, n - 1)], candidates[n - 1];
      if rest != last { OutranksTotal(payloads, last, rest); }
      if k < n - 1 {
        BestIndexMaximal(payloads, candidates, n - 1, k);
        if candidates[k] != rest && Outranks(payloads, last, rest) {
          OutranksTransitive(payloads, last, rest, candidates[k]);
        }
      }
    }
  }

  lemma OutranksTransitive(payloads: seq<Payload>, s: Signature, t: Signature, u: Signature)
    requires Outranks(payloads, s, t) && Outranks(payloads, t, u)
    ensures Outranks(payloads, s, u)
  {
    hide Completeness, Positions;
  }

  /** Different groups never tie: their first samples differ. */
  lemma OutranksTotal(payloads: seq<Payload>, s: Signature, t: Signature)
    requires s != t && Share(payloads, s) > 0 && Share(payloads, t) > 0
    ensures Outranks(payloads, s, t) || Outranks(payloads, t, s)
  {
    PositionsExact(payloads, s);
    PositionsExact(payloads, t);
    hide Completeness, Positions, SignatureOf;
    assert SignatureOf(payloads[Positions(payloads, s)[0]]) == s;
    assert SignatureOf(payloads[Positions(payloads, t)[0]]) == t;
  }

  /**
   The best group outranks every other group of the batch, whether or not it was a candidate: it shows more supported
   windows, or as many and has more samples, or as many of both and its first sample comes earlier.
   */
  lemma BestIsMaximal(payloads: seq<Payload>, s: Signature)
    requires |payloads| > 0 && Share(payloads, s) > 0 && s != BestSignature(payloads)
    ensures var best := BestSignature(payloads);
      || Completeness(best) > Completeness(s)
      || (Completeness(best) == Completeness(s) && Share(payloads, best) > Share(payloads, s))
      || (Completeness(best) == Completeness(s) && Share(payloads, best) == Share(payloads, s)
          && Positions(payloads, best)[0] < Positions(payloads, s)[0])
  {
    OccursIsShare(payloads, s);
    BestOutranks(payloads, s);
    hide Completeness, Positions, BestSignature;
  }

  lemma BestOutranks(payloads: seq<Payload>, s: Signature)
    requires Occurs(payloads, s)
    ensures s == BestSignature(payloads) || Outranks(payloads, BestSignature(payloads), s)
  {
    var order := SignaturesOf(payloads);
    var candidates := Candidates(order);
    forall i | 0 <= i < |candidates| ensures Share(payloads, candidates[i]) > 0 {
      CandidateOccurs(payloads, i);
    }
    SignaturesExact(payloads, s);
    var best := BestSignature(payloads);
    ValuedExact(order, s);
    ValuedExact(order, best);
    hide Positions, Share, SignatureOf, SignaturesOf, Occurs, BestIndex, Completeness;
    if s in candidates {
      var k :| 0 <= k < |candidates| && candidates[k] == s;
      BestIndexMaximal(payloads, candidates, |candidates|, k);
    } else {
      assert best in candidates;
    }
  }

  // ---------------------------------------------------------------- rejection tests

  predicate SameMainFlags(p: Payload, q: Payload) {
    if p.main.Limits? && q.main.Limits? then p.main.allowed == q.main.allowed && p.main.reached == q.main.reached
    else !p.main.Limits? && !q.main.Limits?
  }

  datatype SparkSignature = SparkMissing | SparkNull | SparkBad | SparkEmpty | SparkInvalid | SparkAbsent
    | SparkSignature(allowed: Flag, reached: Flag, primary: Option<WindowSignature>, secondary: Option<WindowSignature>)

  function SignatureOfItems(items: seq<SparkItem>): SparkSignature {
    if |items| == 0 then SparkAbsent
    else if items[0].OtherItem? then SignatureOfItems(items[1..])
    else if items[0].limits.Limits? then
      var l := items[0].limits;
      SparkSignature(l.allowed, l.reached, SignatureOfWindow(l.primary), SignatureOfWindow(l.secondary))
    else SparkInvalid
  }

  function SignatureOfSpark(s: Spark): SparkSignature {
    match s
    case NoSpark => SparkMissing
    case NullSpark => SparkNull
    case MalformedSpark => SparkBad
    case SparkItems(items) => if |items| == 0 then SparkEmpty else SignatureOfItems(items)
  }

  predicate AgreeOnFlags(payloads: seq<Payload>) {
    forall i :: 0 <= i < |payloads| ==> SameMainFlags(payloads[i], payloads[0])
  }

  predicate AgreeOnSpark(payloads: seq<Payload>) {
    forall i :: 0 <= i < |payloads| ==> SignatureOfSpark(payloads[i].spark) == SignatureOfSpark(payloads[0].spark)
  }

  predicate WellFormed(payloads: seq<Payload>) {
    forall i :: 0 <= i < |payloads| ==> !payloads[i].main.MalformedLimits? && !payloads[i].spark.MalformedSpark?
  }

  /** Every supported duration seen in a sample with identity `id`. */
  function ObservedDurations(payloads: seq<Payload>, id: Identity): set<real> {
    if |payloads| == 0 then {}
    else
      var p := payloads[|payloads| - 1];
      ObservedDurations(payloads[..|payloads| - 1], id) + (if p.identity == id then SupportedDurations(p) else {})
  }

  predicate ConflictingPartialWindows(payloads: seq<Payload>, best: Payload)
    requires |payloads| > 0
  {
    var latest := payloads[|payloads| - 1];
    var durations, latestDurations := SupportedDurations(best), SupportedDurations(latest);
    if |durations| >= 2 then 0 < |latestDurations| < |durations| && latest.identity == best.identity
    else |durations + ObservedDurations(payloads, best.identity)| > |durations|
  }

  // ---------------------------------------------------------------- progress and resets

  predicate Absent(payloads: seq<Payload>, k: nat) {
    forall i :: 0 <= i < |payloads| ==> WindowOf(payloads[i], k).None?
  }

  predicate StableWindow(payloads: seq<Payload>, k: nat) {
    forall i :: 0 <= i < |payloads| ==>
      var w, first := Part(SignatureOf(payloads[i]), k), Part(SignatureOf(payloads[0]), k);
      && w.Some? && first.Some? && w.value.used.Some? && w.value.reset.Some?
      && w.value.duration == first.value.duration && w.value.reset == first.value.reset
  }

  predicate Steps(payloads: seq<Payload>, k: nat, maxStep: Option<real>)
    requires StableWindow(payloads, k)
  {
    forall i :: 0 < i < |payloads| ==>
      var previous, current := WindowOf(payloads[i - 1], k).value.used.value, WindowOf(payloads[i], k).value.used.value;
      previous <= current && (maxStep.Some? ==> current - previous <= maxStep.value)
  }

  /** The samples show one account whose counters only rise, each step at most `maxStep`. */
  predicate Progresses(payloads: seq<Payload>, maxStep: Option<real>) {
    && (forall i :: 0 <= i < |payloads| ==> payloads[i].identity == payloads[0].identity)
    && (forall k: nat :: k < 2 ==> Absent(payloads, k) || (StableWindow(payloads, k) && Steps(payloads, k, maxStep)))
    && (exists k: nat :: k < 2 && !Absent(payloads, k))
  }

  datatype Comparison = Incomparable | Same | Ahead

  function CompareUsed(latest: Option<Window>, stable: Option<Window>): Comparison {
    if latest.None? && stable.None? then Same
    else if latest.None? || stable.None? || latest.value.used.None? || stable.value.used.None? then Incomparable
    else if latest.value.used.value < stable.value.used.value then Incomparable
    else if latest.value.used.value > stable.value.used.value then Ahead
    else Same
  }

  predicate ProgressesBeyond(payloads: seq<Payload>, best: Payload)
    requires |payloads| > 0
  {
    var latest := payloads[|payloads| - 1];
    var c0, c1 :=
      CompareUsed(WindowOf(latest, 0), WindowOf(best, 0)), CompareUsed(WindowOf(latest, 1), WindowOf(best, 1));
    Progresses(payloads, None) && c0 != Incomparable && c1 != Incomparable && (c0 == Ahead || c1 == Ahead)
  }

  /** What one window contributes to deciding that the latest sample is a reset of an earlier one. */
  datatype Verdict = Refutes | Neutral | Confirms

  predicate SameKnown(a: Option<real>, b: Option<real>) { a.Some? && b.Some? && a.value == b.value }

  predicate CountdownRestarted(p: Window, c: Window) {
    && SameKnown(p.duration, c.duration) && p.resetAfter.Some? && c.resetAfter.Some?
    && c.resetAfter.value > p.resetAfter.value
    && c.resetAfter.value >= c.duration.value - TRANSITION_MARGIN_SECONDS
  }

  function RelativeVerdict(previous: Option<Window>, current: Option<Window>): Verdict {
    if previous.None? && current.None? then Neutral
    else if previous.None? || current.None? then Refutes
    else
      var p, c := previous.value, current.value;
      if p.used.None? && c.used.None? then Neutral
      else if p.used.None? || c.used.None? then Refutes
      else if c.used.value > p.used.value then
        if SameKnown(p.duration, c.duration) && ResetIdentity(p) == ResetIdentity(c)
           && c.used.value - p.used.value <= PROGRESSIVE_STEP_PERCENT
        then Neutral else Refutes
      else if CountdownRestarted(p, c) then Confirms
      else if c.used.value < p.used.value then Refutes else Neutral
  }

  function AbsoluteVerdict(previous: Option<Window>, current: Option<Window>): Verdict {
    if previous.None? && current.None? then Neutral
    else if previous.None? || current.None? then Refutes
    else
      var p, c := previous.value, current.value;
      if p.used.None? && c.used.None? then Neutral
      else if p.used.None? || c.used.None? then Refutes
      else if !SameKnown(p.duration, c.duration) then Refutes
      else
        var smallRise := p.used.value <= c.used.value <= p.used.value + PROGRESSIVE_STEP_PERCENT;
        if p.resetAt.None? || c.resetAt.None? then (if smallRise then Neutral else Refutes)
        else if Bucket(c.resetAt.value) < Bucket(p.resetAt.value) then Refutes
        else if Bucket(c.resetAt.value) > Bucket(p.resetAt.value) then
          (if c.used.value > p.used.value then Refutes else Confirms)
        else if smallRise then Neutral else Refutes
  }

  predicate ResetBy(verdict: (Option<Window>, Option<Window>) -> Verdict, previous: Payload, latest: Payload) {
    var v0, v1 :=
      verdict(WindowOf(previous, 0), WindowOf(latest, 0)), verdict(WindowOf(previous, 1), WindowOf(latest, 1));
    v0 != Refutes && v1 != Refutes && (v0 == Confirms || v1 == Confirms)
  }

  /** The latest sample restarts a window of the newest sample of the best group. */
  predicate LatestIsReset(payloads: seq<Payload>, best: Signature)
    requires Share(payloads, best) > 0
  {
    var latest, previous := payloads[|payloads| - 1], NewestOf(payloads, best);
    && |payloads| >= 2 && SignatureOf(latest) != best && previous.identity == latest.identity
    && (ResetBy(RelativeVerdict, previous, latest) || ResetBy(AbsoluteVerdict, previous, latest))
  }

  predicate PairRegresses(previous: Option<WindowSignature>, current: Option<WindowSignature>) {
    previous.Some? && current.Some? &&
    var p, c := previous.value, current.value;
    || (p.reset.Some? && c.reset.Some? && p.reset.value.After? == c.reset.value.After?
        && c.reset.value.bucket < p.reset.value.bucket)
    || (SameKnown(p.duration, c.duration) && p.used.Some? && c.used.Some? && c.used.value < p.used.value)
    || (p.phase != c.phase && c.phase == FreshWindow)
  }

  predicate Regresses(payloads: seq<Payload>) {
    exists i, k: nat :: 0 < i < |payloads| && k < 2 &&
      PairRegresses(Part(SignatureOf(payloads[i - 1]), k), Part(SignatureOf(payloads[i]), k))
  }

  // ---------------------------------------------------------------- selection

  datatype Rejection = EmptyBatch | InconsistentFlags | MalformedMain | MalformedAdditional | InconsistentLimits
                     | InconsistentSpark

  const FRESH_KEYS := ["credits", "credit_balance", "creditBalance", "remaining_credits", "remainingCredits",
                       "usage_resets", "resets"]
  const CAPABILITY_KEYS := ["available", "known", "redeem_capability"]

  /** The dynamic values of `base`, refreshed from `latest`. */
  method MergeDynamic(base: map<string, Json>, latest: map<string, Json>) returns (merged: map<string, Json>)
    ensures merged == Merged(base, latest)
  {
    merged := base;
    for i := 0 to |FRESH_KEYS|
      invariant merged == Refreshed(base, latest, FRESH_KEYS[..i])
    {
      assert FRESH_KEYS[..i + 1][..i] == FRESH_KEYS[..i];
      if FRESH_KEYS[i] in latest && latest[FRESH_KEYS[i]] != Null {
        merged := merged[FRESH_KEYS[i] := latest[FRESH_KEYS[i]]];
      }
    }
    assert FRESH_KEYS[..|FRESH_KEYS|] == FRESH_KEYS;
    if forall k :: k in CAPABILITY_KEYS ==> k in latest {
      ghost var refreshed := merged;
      for i := 0 to |CAPABILITY_KEYS|
        invariant merged == Copied(refreshed, latest, CAPABILITY_KEYS[..i])
      {
        assert CAPABILITY_KEYS[..i + 1][..i] == CAPABILITY_KEYS[..i];
        merged := merged[CAPABILITY_KEYS[i] := latest[CAPABILITY_KEYS[i]]];
      }
      assert CAPABILITY_KEYS[..|CAPABILITY_KEYS|] == CAPABILITY_KEYS;
    }
  }

  function Refreshed(base: map<string, Json>, latest: map<string, Json>, keys: seq<string>): map<string, Json> {
    if |keys| == 0 then base
    else
      var rest, k := Refreshed(base, latest, keys[..|keys| - 1]), keys[|keys| - 1];
      if k in latest && latest[k] != Null then rest[k := latest[k]] else rest
  }

  function Copied(base: map<string, Json>, latest: map<string, Json>, keys: seq<string>): map<string, Json>
    requires forall k :: k in keys ==> k in latest
  {
    if |keys| == 0 then base
    else Copied(base, latest, keys[..|keys| - 1])[keys[|keys| - 1] := latest[keys[|keys| - 1]]]
  }

  function Merged(base: map<string, Json>, latest: map<string, Json>): map<string, Json> {
    var refreshed := Refreshed(base, latest, FRESH_KEYS);
    if forall k :: k in CAPABILITY_KEYS ==> k in latest then Copied(refreshed, latest, CAPABILITY_KEYS) else refreshed
  }

  function FirstOf(payloads: seq<Payload>, s: Signature): (p: Payload)
    requires Share(payloads, s) > 0
    ensures SignatureOf(p) == s && p in payloads
  {
    PositionsExact(payloads, s);
    payloads[Positions(payloads, s)[0]]
  }

  function NewestOf(payloads: seq<Payload>, s: Signature): (p: Payload)
    requires Share(payloads, s) > 0
    ensures SignatureOf(p) == s && p in payloads
  {
    PositionsExact(payloads, s);
    payloads[Positions(payloads, s)[Share(payloads, s) - 1]]
  }

  /** What happens to a batch of samples, in the order the tests are made. */
  function Select(payloads: seq<Payload>): Result<Payload, Rejection> {
    if |payloads| == 0 then Err(EmptyBatch)
    else if !AgreeOnFlags(payloads) then Err(InconsistentFlags)
    else if exists i :: 0 <= i < |payloads| && payloads[i].main.MalformedLimits? then Err(MalformedMain)
    else if exists i :: 0 <= i < |payloads| && payloads[i].spark.MalformedSpark? then Err(MalformedAdditional)
    else
      var best, latest := BestSignature(payloads), payloads[|payloads| - 1];
      var first := FirstOf(payloads, best);
      if ConflictingPartialWindows(payloads, first) then Err(InconsistentLimits)
      else if !AgreeOnSpark(payloads) then Err(InconsistentSpark)
      else if Regresses(payloads) && SignatureOf(latest) != best then
        if LatestIsReset(payloads, best) then Ok(latest) else Err(InconsistentLimits)
      else if LatestIsReset(payloads, best) then Ok(latest)
      else if Share(payloads, best) * 2 <= |payloads| then
        if Progresses(payloads, Some(PROGRESSIVE_STEP_PERCENT)) then Ok(latest) else Err(InconsistentLimits)
      else if ProgressesBeyond(payloads, first) then Ok(latest)
      else Ok(first.(dynamic := Merged(first.dynamic, NewestOf(payloads, best).dynamic)))
  }

  method SelectStableUsage(payloads: seq<Payload>) returns (r: Result<Payload, Rejection>)
    ensures r == Select(payloads)
  {
    hide SignatureOf, ConflictingPartialWindows, LatestIsReset, Regresses, Progresses, ProgressesBeyond, BestIndex,
      Positions, Occurs, Valued, Merged;
    if |payloads| == 0 { return Err(EmptyBatch); }
    if !AgreeOnFlags(payloads) { return Err(InconsistentFlags); }
    if exists i :: 0 <= i < |payloads| && payloads[i].main.MalformedLimits? { return Err(MalformedMain); }
    if exists i :: 0 <= i < |payloads| && payloads[i].spark.MalformedSpark? { return Err(MalformedAdditional); }
    var order, groups := GroupBySignature(payloads);
    SignaturesExact(payloads, SignatureOf(payloads[0]));
    var best := BestOf(payloads, Candidates(order));
    assert best == BestSignature(payloads);
    SignaturesExact(payloads, best);
    OccursIsShare(payloads, best);
    PositionsExact(payloads, best);
    var members := groups[best];
    var first, newest := FirstOf(payloads, best), NewestOf(payloads, best);
    if ConflictingPartialWindows(payloads, first) { return Err(InconsistentLimits); }
    if !AgreeOnSpark(payloads) { return Err(InconsistentSpark); }
    var latest := payloads[|payloads| - 1];
    var latestInBest := |payloads| - 1 in members;
    var latestIsReset := LatestIsReset(payloads, best);
    if Regresses(payloads) && !latestInBest {
      if latestIsReset { return Ok(latest); }
      return Err(InconsistentLimits);
    }
    if latestIsReset { return Ok(latest); }
    if |members| * 2 <= |payloads| {
      if Progresses(payloads, Some(PROGRESSIVE_STEP_PERCENT)) { return Ok(latest); }
      return Err(InconsistentLimits);
    }
    if ProgressesBeyond(payloads, first) { return Ok(latest); }
    var dynamic := MergeDynamic(first.dynamic, newest.dynamic);
    return Ok(first.(dynamic := dynamic));
  }

  // ---------------------------------------------------------------- main results

  /**
   Whatever is returned has the identity of the best group, and its limits carry the signature of the latest sample or
   one shared by a strict majority of the samples. Its limits are those of one sample, never a mixture.
   */
  lemma SelectionSound(payloads: seq<Payload>)
    requires Select(payloads).Ok?
    ensures |payloads| > 0
    ensures var r, latest := Select(payloads).value, payloads[|payloads| - 1];
            && r.identity == BestSignature(payloads).identity
            && (r == latest || 2 * Share(payloads, SignatureOf(r)) > |payloads|)
            && (exists p :: p in payloads && r.main == p.main && r.spark == p.spark && r.identity == p.identity)
  {
    hide Outranks, Regresses, ConflictingPartialWindows, ResetBy, Steps, StableWindow, AgreeOnFlags, AgreeOnSpark;
    var r, best, latest := Select(payloads).value, BestSignature(payloads), payloads[|payloads| - 1];
    var first := FirstOf(payloads, best);
    assert first.identity == best.identity;
    if r == latest {
      assert latest in payloads;
      if !LatestIsReset(payloads, best) && r.main != first.main {
        ProgressSharesIdentity(payloads, first);
      }
    } else {
      assert r.main == first.main && SignatureOf(r) == best;
    }
  }

  lemma ProgressSharesIdentity(payloads: seq<Payload>, p: Payload)
    requires p in payloads
    ensures Progresses(payloads, None) || Progresses(payloads, Some(PROGRESSIVE_STEP_PERCENT)) ==>
      p.identity == payloads[|payloads| - 1].identity
  {}

  /** Returned limits agree with every sample about the allowed and reached flags and about the Spark limits. */
  lemma SelectionConsistent(payloads: seq<Payload>, i: nat)
    requires Select(payloads).Ok? && i < |payloads|
    ensures SameMainFlags(Select(payloads).value, payloads[i])
    ensures SignatureOfSpark(Select(payloads).value.spark) == SignatureOfSpark(payloads[i].spark)
  {
    SelectionSound(payloads);
    hide Select;
    var r := Select(payloads).value;
    var p :| p in payloads && r.main == p.main && r.spark == p.spark;
    var j :| 0 <= j < |payloads| && payloads[j] == p;
    assert AgreeOnFlags(payloads) && AgreeOnSpark(payloads);
    assert SameMainFlags(payloads[j], payloads[0]) && SameMainFlags(payloads[i], payloads[0]);
  }

  lemma DurationsSupported(payloads: seq<Payload>, id: Identity, p: Payload)
    ensures ObservedDurations(payloads, id) <= SUPPORTED_SECONDS && SupportedDurations(p) <= SUPPORTED_SECONDS
  {
    if |payloads| > 0 {
      DurationsSupported(payloads[..|payloads| - 1], id, p);
    }
  }

  lemma {:induction false} ObservedIncludes(payloads: seq<Payload>, i: nat)
    requires i < |payloads|
    ensures SupportedDurations(payloads[i]) <= ObservedDurations(payloads, payloads[i].identity)
  {
    hide SupportedDurations;
    var n := |payloads| - 1;
    if i < n {
      ObservedIncludes(payloads[..n], i);
    }
  }

  lemma SubsetOfTwo(a: set<real>)
    requires a <= SUPPORTED_SECONDS
    ensures |a| <= 2
    ensures |a| == 2 <==> a == SUPPORTED_SECONDS
  {
    var rest := SUPPORTED_SECONDS - a;
    assert SUPPORTED_SECONDS == a + rest;
    assert |SUPPORTED_SECONDS| == |a| + |rest|;
    if rest == {} { assert a == SUPPORTED_SECONDS; }
  }

  lemma NoGrowth(a: set<real>, b: set<real>)
    requires |a + b| <= |a|
    ensures b <= a
  {
    assert a + b == a + (b - a);
    assert |a + (b - a)| == |a| + |b - a|;
  }

  /** What the partial-window test leaves: the best sample shows every duration seen, the latest all of them or none. */
  lemma NoConflictCovers(payloads: seq<Payload>, best: Payload)
    requires |payloads| > 0 && !ConflictingPartialWindows(payloads, best)
    ensures ObservedDurations(payloads, best.identity) <= SupportedDurations(best)
    ensures var latest := payloads[|payloads| - 1];
            latest.identity == best.identity && SupportedDurations(latest) != {} ==>
              SupportedDurations(best) <= SupportedDurations(latest)
  {
    var latest, seen := payloads[|payloads| - 1], ObservedDurations(payloads, best.identity);
    DurationsSupported(payloads, best.identity, best);
    DurationsSupported(payloads, best.identity, latest);
    ObservedIncludes(payloads, |payloads| - 1);
    hide SupportedDurations, ObservedDurations;
    var db, dl := SupportedDurations(best), SupportedDurations(latest);
    SubsetOfTwo(db);
    SubsetOfTwo(dl);
    if |db| < 2 {
      NoGrowth(db, seen);
      if dl != {} && latest.identity == best.identity {
        AtMostOne(dl, db);
      }
    }
  }

  lemma AtMostOne(a: set<real>, b: set<real>)
    requires a <= b && |b| < 2 && |a| > 0
    ensures b <= a
  {
    assert b == a + (b - a) && |b| == |a| + |b - a|;
  }

  /** The tests on a batch that lead to the latest sample: a restart, no majority, or progress beyond the majority. */
  predicate TakesLatest(payloads: seq<Payload>)
    requires |payloads| > 0
  {
    var best := BestSignature(payloads);
    || LatestIsReset(payloads, best)
    || Share(payloads, best) * 2 <= |payloads|
    || ProgressesBeyond(payloads, FirstOf(payloads, best))
  }

  /**
   Which sample an answer takes its limits from: the latest exactly if one of the tests says so, else the first majority
   member.
   */
  lemma LimitsTakenFrom(payloads: seq<Payload>)
    requires Select(payloads).Ok?
    ensures |payloads| > 0
    ensures Select(payloads).value.identity == FirstOf(payloads, BestSignature(payloads)).identity
    ensures if TakesLatest(payloads) then Select(payloads).value == payloads[|payloads| - 1]
            else Select(payloads).value.main == FirstOf(payloads, BestSignature(payloads)).main
  {
    hide Regresses, ConflictingPartialWindows, AgreeOnFlags, AgreeOnSpark, BestSignature, ResetBy, Progresses, Steps;
    SelectionShape(payloads);
  }

  /**
   No limit is lost exactly if the answer is not the latest sample, or the latest sample shows some supported window, or
   no sample of its identity did. Everything in the condition is read off the batch.
   */
  lemma SelectionCovers(payloads: seq<Payload>)
    requires Select(payloads).Ok?
    ensures |payloads| > 0
    ensures var r, latest := Select(payloads).value, payloads[|payloads| - 1];
            ObservedDurations(payloads, r.identity) <= SupportedDurations(r) <==>
              !TakesLatest(payloads) || SupportedDurations(latest) != {} ||
                ObservedDurations(payloads, latest.identity) == {}
  {
    LimitsTakenFrom(payloads);
    SelectionShape(payloads);
    var r, latest, first :=
      Select(payloads).value, payloads[|payloads| - 1], FirstOf(payloads, BestSignature(payloads));
    NoConflictCovers(payloads, first);
    hide Select, ConflictingPartialWindows, SupportedDurations, ObservedDurations, BestSignature, TakesLatest;
    if !TakesLatest(payloads) { SameMainSameDurations(r, first); }
  }

  /** The two forms an answer can take, and what has been ruled out when it is not the latest sample. */
  lemma SelectionShape(payloads: seq<Payload>)
    requires Select(payloads).Ok?
    ensures |payloads| > 0
    ensures var r, best := Select(payloads).value, BestSignature(payloads);
            var first := FirstOf(payloads, best);
            && !ConflictingPartialWindows(payloads, first) && first.identity == r.identity
            && (r == payloads[|payloads| - 1]
                || (r.main == first.main && SignatureOf(r) == best
                    && (Regresses(payloads) ==> SignatureOf(payloads[|payloads| - 1]) == best)))
  {
    hide Regresses, ConflictingPartialWindows, AgreeOnFlags, AgreeOnSpark, BestSignature, ResetBy;
    SelectionSound(payloads);
    var first := FirstOf(payloads, BestSignature(payloads));
    SignatureIgnoresDynamic(first, Merged(first.dynamic, NewestOf(payloads, BestSignature(payloads)).dynamic));
  }

  lemma SameMainSameDurations(p: Payload, q: Payload)
    requires p.main == q.main
    ensures SupportedDurations(p) == SupportedDurations(q)
  {}

  /** The usage of window `k` fell between two samples that give it the same duration. */
  predicate UsageFell(p: Payload, q: Payload, k: nat) {
    var v, w := WindowOf(p, k), WindowOf(q, k);
    && v.Some? && w.Some? && SameKnown(v.value.duration, w.value.duration)
    && v.value.used.Some? && w.value.used.Some? && w.value.used.value < v.value.used.value
  }

  predicate FellAt(payloads: seq<Payload>, i: nat)
    requires 0 < i < |payloads|
  {
    UsageFell(payloads[i - 1], payloads[i], 0) || UsageFell(payloads[i - 1], payloads[i], 1)
  }

  /** Some usage fell between consecutive samples. */
  predicate AnyFall(payloads: seq<Payload>) { exists i :: 0 < i < |payloads| && FellAt(payloads, i) }

  lemma FallRegresses(payloads: seq<Payload>)
    requires AnyFall(payloads)
    ensures Regresses(payloads)
  {
    var i :| 0 < i < |payloads| && FellAt(payloads, i);
    var k: nat := if UsageFell(payloads[i - 1], payloads[i], 0) then 0 else 1;
    assert PairRegresses(Part(SignatureOf(payloads[i - 1]), k), Part(SignatureOf(payloads[i]), k));
  }

  predicate SameReading(v: Option<Window>, w: Option<Window>) {
    v.Some? == w.Some? && (v.Some? ==> v.value.duration == w.value.duration && v.value.used == w.value.used)
  }

  /** The same durations and percentages in both windows; only the reset times may differ. */
  predicate SameReadings(p: Payload, q: Payload) {
    SameReading(WindowOf(p, 0), WindowOf(q, 0)) && SameReading(WindowOf(p, 1), WindowOf(q, 1))
  }

  lemma SameSignatureSameReadings(p: Payload, q: Payload)
    requires SignatureOf(p) == SignatureOf(q)
    ensures SameReadings(p, q)
  {}

  /** Usage is never rewound: if any usage fell between samples, the answer shows the readings of the latest sample. */
  lemma SelectionNeverRewinds(payloads: seq<Payload>)
    requires Select(payloads).Ok? && AnyFall(payloads)
    ensures |payloads| > 0 && SameReadings(Select(payloads).value, payloads[|payloads| - 1])
    ensures SignatureOf(Select(payloads).value) == SignatureOf(payloads[|payloads| - 1])
  {
    FallRegresses(payloads);
    SelectionShape(payloads);
    var r, latest := Select(payloads).value, payloads[|payloads| - 1];
    hide Select, Regresses, ConflictingPartialWindows, SignatureOf, AnyFall, SameReadings;
    SameSignatureSameReadings(r, latest);
  }

  /**
   Limits other than the latest are returned after a fall of usage exactly when the latest sample belongs to the best
   group and is not taken itself, and the first member of that group differs from it, which can only be in a reset time.
   */
  lemma FallKeepsOlderLimits(payloads: seq<Payload>)
    requires Select(payloads).Ok? && AnyFall(payloads)
    ensures |payloads| > 0
    ensures var best, latest := BestSignature(payloads), payloads[|payloads| - 1];
            Select(payloads).value.main != latest.main <==>
              SignatureOf(latest) == best && !TakesLatest(payloads) && FirstOf(payloads, best).main != latest.main
  {
    FallRegresses(payloads);
    LimitsTakenFrom(payloads);
    SelectionShape(payloads);
    hide Select, Regresses, ConflictingPartialWindows, AnyFall, TakesLatest, BestSignature;
  }

  lemma SignatureIgnoresDynamic(p: Payload, dynamic: map<string, Json>)
    ensures SignatureOf(p.(dynamic := dynamic)) == SignatureOf(p)
  {}

  function SingleWindow(used: real, resetAfter: real): Payload {
    Payload(BackendIdentity.Identity(None, None),
            Limits(NullFlag, NullFlag, Some(Window(Some(18000.0), Some(used), Some(resetAfter), None)), None),
            NoSpark, map[])
  }

  /**
   Limits are lost in a restart: after two samples at 5 percent, a restarted window that reads -1 percent is returned,
   although it carries no supported window and the other two do.
   */
  lemma MalformedRestartDropsLimits()
    ensures var before, restart := SingleWindow(5.0, 100.0), SingleWindow(-1.0, 18000.0);
            && Select([before, before, restart]) == Ok(restart)
            && SupportedDurations(restart) == {} && SupportedDurations(before) == {18000.0}
  {
    var before, restart := SingleWindow(5.0, 100.0), SingleWindow(-1.0, 18000.0);
    var batch := [before, before, restart];
    RestartBest(before, restart);
    RestartObserved(before, restart);
    assert CountdownRestarted(WindowOf(before, 0).value, WindowOf(restart, 0).value);
    assert RelativeVerdict(WindowOf(before, 0), WindowOf(restart, 0)) == Confirms;
    assert ResetBy(RelativeVerdict, before, restart);
    PlainBatch(before, before, restart);
    hide Positions, BestSignature, ObservedDurations, Regresses, Progresses, ResetBy, CountdownRestarted, AgreeOnFlags,
      AgreeOnSpark;
    assert !ConflictingPartialWindows(batch, before);
    assert LatestIsReset(batch, SignatureOf(before));
  }

  /** Samples without flags and without Spark limits pass the first tests. */
  lemma PlainBatch(a: Payload, b: Payload, c: Payload)
    requires a.main.Limits? && b.main.Limits? && c.main.Limits? && a.spark == b.spark == c.spark == NoSpark
    requires SameMainFlags(a, b) && SameMainFlags(a, c) && SameMainFlags(b, c)
    ensures AgreeOnFlags([a, b, c]) && AgreeOnSpark([a, b, c]) && WellFormed([a, b, c])
  {}

  /**
   Limits are lost without any reset, too: after two samples at 99.5 percent, one at 100.5 percent is returned as
   progress.
   */
  lemma OvershootDropsLimits()
    ensures var before, over := SingleWindow(99.5, 100.0), SingleWindow(100.5, 90.0);
            && Select([before, before, over]) == Ok(over)
            && SupportedDurations(over) == {} && SupportedDurations(before) == {18000.0}
  {
    var before, over := SingleWindow(99.5, 100.0), SingleWindow(100.5, 90.0);
    var batch := [before, before, over];
    RestartBest(before, over);
    RestartPositions(before, over);
    RestartObserved(before, over);
    OvershootProgresses(batch, before, over);
    OvershootIsNoReset(before, over);
    PlainBatch(before, before, over);
    hide Positions, BestSignature, ObservedDurations, Progresses, Regresses, ResetBy, AgreeOnFlags, AgreeOnSpark;
    assert !ConflictingPartialWindows(batch, before);
    assert !LatestIsReset(batch, SignatureOf(before));
    assert ProgressesBeyond(batch, before);
  }

  lemma OvershootIsNoReset(before: Payload, over: Payload)
    requires before == SingleWindow(99.5, 100.0) && over == SingleWindow(100.5, 90.0)
    ensures !ResetBy(RelativeVerdict, before, over) && !ResetBy(AbsoluteVerdict, before, over)
  {}

  lemma OvershootProgresses(batch: seq<Payload>, before: Payload, over: Payload)
    requires before == SingleWindow(99.5, 100.0) && over == SingleWindow(100.5, 90.0) && batch == [before, before, over]
    ensures Progresses(batch, None) && !Regresses(batch)
  {
    assert !Absent(batch, 0) && Absent(batch, 1);
  }

  /** After a fall of usage an older reset time can be returned, with the readings of the latest sample. */
  lemma OlderCountdownAfterFall()
    ensures var a, b, c := SingleWindow(5.0, 1000.0), SingleWindow(3.0, 999.0), SingleWindow(5.0, 998.0);
            && Select([a, b, c]).Ok? && Select([a, b, c]).value.main == a.main != c.main && AnyFall([a, b, c])
  {
    var a, b, c := SingleWindow(5.0, 1000.0), SingleWindow(3.0, 999.0), SingleWindow(5.0, 998.0);
    var batch := [a, b, c];
    FallBest(a, b, c);
    RestartObservedTwice(a, b, c);
    assert UsageFell(a, b, 0) && UsageFell(batch[0], batch[1], 0);
    assert !Progresses(batch, None) by {
      assert WindowOf(batch[1], 0).value.used.value < WindowOf(batch[0], 0).value.used.value;
      assert !Absent(batch, 0);
    }
    PlainBatch(a, b, c);
    assert FellAt(batch, 1);
    hide Positions, BestSignature, ObservedDurations, Regresses, Progresses, ResetBy, AgreeOnFlags, AgreeOnSpark;
    assert !ConflictingPartialWindows(batch, a);
    assert !LatestIsReset(batch, SignatureOf(a));
  }

  lemma RestartObservedTwice(a: Payload, b: Payload, c: Payload)
    requires a.identity == b.identity == c.identity
    requires SupportedDurations(a) == SupportedDurations(b) == SupportedDurations(c) == {18000.0}
    ensures ObservedDurations([a, b, c], a.identity) == {18000.0}
  {
    hide SupportedDurations;
    var batch := [a, b, c];
    assert batch[..2] == [a, b] && batch[..2][..1] == [a] && batch[..2][..1][..0] == [];
    var id := a.identity;
    assert ObservedDurations(batch[..2][..1], id) == ObservedDurations(batch[..2][..1][..0], id) + {18000.0};
    assert ObservedDurations(batch[..2], id) == {18000.0};
  }

  lemma FallPositions(a: Payload, b: Payload, c: Payload)
    requires SignatureOf(a) == SignatureOf(c) != SignatureOf(b)
    ensures Positions([a, b, c], SignatureOf(a)) == [0, 2] && Positions([a, b, c], SignatureOf(b)) == [1]
    ensures SignaturesOf([a, b, c]) == [SignatureOf(a), SignatureOf(b)]
  {
    var s, t := SignatureOf(a), SignatureOf(b);
    hide SignatureOf;
    PositionsStep([], a, s);
    PositionsStep([a], b, s);
    PositionsStep([a, b], c, s);
    PositionsStep([], a, t);
    PositionsStep([a], b, t);
    PositionsStep([a, b], c, t);
    SignaturesStep([], a);
    SignaturesStep([a], b);
    SignaturesStep([a, b], c);
    assert Positions([], s) == [] && Positions([], t) == [] && SignaturesOf([]) == [];
    hide Positions, SignaturesOf;
    assert [] + [a] == [a] && [a] + [b] == [a, b] && [a, b] + [c] == [a, b, c];
  }

  lemma FallBest(a: Payload, b: Payload, c: Payload)
    requires SignatureOf(a) == SignatureOf(c) != SignatureOf(b)
    requires Completeness(SignatureOf(a)) == 1 && Completeness(SignatureOf(b)) == 1
    ensures var batch := [a, b, c];
            && BestSignature(batch) == SignatureOf(a) && Share(batch, SignatureOf(a)) == 2
            && FirstOf(batch, SignatureOf(a)) == a && NewestOf(batch, SignatureOf(a)) == c
  {
    hide SignatureOf, Completeness, Positions, SignaturesOf;
    var s, t := SignatureOf(a), SignatureOf(b);
    FallPositions(a, b, c);
    var none: seq<Signature> := [];
    assert [s, t][..1] == [s] && [s][..0] == none && Valued(none) == none;
    assert Valued([s]) == none + [s];
    assert Valued([s, t]) == [s] + [t];
  }

  lemma PositionsStep(payloads: seq<Payload>, p: Payload, s: Signature)
    ensures Positions(payloads + [p], s) == Positions(payloads, s) + (if SignatureOf(p) == s then [|payloads|] else [])
  {
    assert (payloads + [p])[..|payloads|] == payloads;
  }

  lemma SignaturesStep(payloads: seq<Payload>, p: Payload)
    ensures SignaturesOf(payloads + [p]) ==
      if SignatureOf(p) in SignaturesOf(payloads) then SignaturesOf(payloads)
      else SignaturesOf(payloads) + [SignatureOf(p)]
  {
    assert (payloads + [p])[..|payloads|] == payloads;
  }

  lemma RestartPositions(before: Payload, restart: Payload)
    requires SignatureOf(before) != SignatureOf(restart)
    ensures Positions([before, before, restart], SignatureOf(before)) == [0, 1]
    ensures SignaturesOf([before, before, restart]) == [SignatureOf(before), SignatureOf(restart)]
  {
    var s, t := SignatureOf(before), SignatureOf(restart);
    hide SignatureOf;
    PositionsStep([], before, s);
    PositionsStep([before], before, s);
    PositionsStep([before, before], restart, s);
    SignaturesStep([], before);
    SignaturesStep([before], before);
    SignaturesStep([before, before], restart);
    assert Positions([], s) == [] && SignaturesOf([]) == [];
    hide Positions, SignaturesOf;
    assert [] + [before] == [before] && [before] + [before] == [before, before];
    assert [before, before] + [restart] == [before, before, restart];
  }

  lemma RestartBest(before: Payload, restart: Payload)
    requires Completeness(SignatureOf(before)) == 1 && Completeness(SignatureOf(restart)) == 0
    ensures var batch := [before, before, restart];
            && BestSignature(batch) == SignatureOf(before)
            && FirstOf(batch, SignatureOf(before)) == NewestOf(batch, SignatureOf(before)) == before
  {
    hide SignatureOf, Completeness, Positions, SignaturesOf;
    var s, t := SignatureOf(before), SignatureOf(restart);
    RestartPositions(before, restart);
    var none: seq<Signature> := [];
    assert [s, t][..1] == [s] && [s][..0] == none && Valued(none) == none;
    assert Valued([s]) == none + [s];
    assert Valued([s, t]) == Valued([s, t][..1]) + none;
  }

  lemma RestartObserved(before: Payload, restart: Payload)
    requires before.identity == restart.identity && SupportedDurations(before) == {18000.0} &&
      SupportedDurations(restart) == {}
    ensures ObservedDurations([before, before, restart], before.identity) == {18000.0}
  {
    hide SupportedDurations;
    var batch := [before, before, restart];
    assert batch[..2] == [before, before] && batch[..2][..1] == [before] && batch[..2][..1][..0] == [];
    var id := before.identity;
    assert ObservedDurations(batch[..2][..1], id) == ObservedDurations(batch[..2][..1][..0], id) + {18000.0};
    assert ObservedDurations(batch[..2], id) == {18000.0};
  }

  /**
   Every dynamic value of a returned majority: the newest member's where it gives one, otherwise the first member's.
   */
  lemma MergedExact(base: map<string, Json>, latest: map<string, Json>, k: string)
    ensures var m := Merged(base, latest);
            var renewed := {"credits", "credit_balance", "creditBalance", "remaining_credits", "remainingCredits",
                            "usage_resets", "resets"};
            var capability := {"available", "known", "redeem_capability"};
            var taken := (k in renewed && k in latest && latest[k] != Null) ||
              (k in capability && capability <= latest.Keys);
            (k in m <==> taken || k in base) && (k in m ==> m[k] == if taken then latest[k] else base[k])
  {
    RefreshedExact(base, latest, FRESH_KEYS, k);
    if forall c :: c in CAPABILITY_KEYS ==> c in latest {
      CopiedExact(Refreshed(base, latest, FRESH_KEYS), latest, CAPABILITY_KEYS, k);
    }
  }

  lemma {:induction false} RefreshedExact(base: map<string, Json>, latest: map<string, Json>, keys: seq<string>,
      k: string)
    ensures var m := Refreshed(base, latest, keys);
            var taken := k in keys && k in latest && latest[k] != Null;
            (k in m <==> taken || k in base) && (k in m ==> m[k] == if taken then latest[k] else base[k])
  {
    if |keys| > 0 {
      var n := |keys| - 1;
      RefreshedExact(base, latest, keys[..n], k);
      assert k in keys <==> k in keys[..n] || k == keys[n];
    }
  }

  lemma {:induction false} CopiedExact(base: map<string, Json>, latest: map<string, Json>, keys: seq<string>, k: string)
    requires forall c :: c in keys ==> c in latest
    ensures var m := Copied(base, latest, keys);
            (k in m <==> k in keys || k in base) && (k in m ==> m[k] == if k in keys then latest[k] else base[k])
  {
    if |keys| > 0 {
      var n := |keys| - 1;
      CopiedExact(base, latest, keys[..n], k);
      assert k in keys <==> k in keys[..n] || k == keys[n];
    }
  }

  // ---------------------------------------------------------------- retries

  const SAMPLE_COUNT := 3
  const ATTEMPTS := 3

  datatype FetchError = RequestFailed(reason: string) | Unstable(rejection: Rejection) | InvalidValue(reason: string)

  /** One request: a payload, a fetch error worth another attempt, or an invalid value that ends the fetch. */
  datatype Fetch = Fetched(payload: Payload) | Failed(reason: string) | Invalid(reason: string)

  datatype Attempt = Success(payload: Payload) | Retry(error: FetchError) | Stop(error: FetchError)

  /** The answer to every request of every attempt; a request that finds the deadline passed has failed. */
  type Feed = (nat, nat) -> Fetch

  /** What each pause between attempts finds: the reason to give up there if the deadline has passed. */
  type Pauses = nat -> Option<string>

  function Samples(feed: Feed, attempt: nat, count: nat): Result<seq<Payload>, Attempt> {
    if count == 0 then Ok([])
    else
      match Samples(feed, attempt, count - 1)
      case Err(e) => Err(e)
      case Ok(earlier) =>
        match feed(attempt, count - 1)
        case Fetched(p) => Ok(earlier + [p])
        case Failed(reason) => Err(Retry(RequestFailed(reason)))
        case Invalid(reason) => Err(Stop(InvalidValue(reason)))
  }

  function AttemptOf(feed: Feed, attempt: nat): Attempt {
    match Samples(feed, attempt, SAMPLE_COUNT)
    case Err(e) => e
    case Ok(payloads) =>
      match Select(payloads)
      case Ok(p) => Success(p)
      case Err(rejection) => Retry(Unstable(rejection))
  }

  /** The attempts and pauses before attempt `a` leave the fetch going. */
  predicate GoesOn(feed: Feed, pauses: Pauses, a: nat) {
    forall b :: 0 <= b < a ==> AttemptOf(feed, b).Retry? && pauses(b).None?
  }

  /**
   The first attempt that is stable answers. An invalid value ends the fetch with its own error, a passed deadline ends
   it in a pause, and otherwise the error of the last attempt is raised.
   */
  method FetchStableUsage(feed: Feed, pauses: Pauses) returns (r: Result<Payload, FetchError>)
    ensures r.Ok? <==> exists a :: 0 <= a < 3 && GoesOn(feed, pauses, a) && AttemptOf(feed, a).Success?
    ensures r.Ok? ==> exists a :: 0 <= a < 3 && GoesOn(feed, pauses, a) && AttemptOf(feed, a) == Success(r.value)
    ensures r.Err? ==> exists a :: 0 <= a < 3 && GoesOn(feed, pauses, a) && Raises(feed, pauses, a, r.error)
  {
    hide Select;
    for attempt := 0 to ATTEMPTS
      invariant GoesOn(feed, pauses, attempt) && attempt < ATTEMPTS
    {
      var payloads, failure := [], None;
      for k := 0 to SAMPLE_COUNT
        invariant failure.None? ==> Samples(feed, attempt, k) == Ok(payloads)
        invariant failure.Some? ==> Samples(feed, attempt, k) == Err(failure.value) && !failure.value.Success?
      {
        if failure.None? {
          match feed(attempt, k)
          case Fetched(p) => payloads := payloads + [p];
          case Failed(reason) => failure := Some(Retry(RequestFailed(reason)));
          case Invalid(reason) => failure := Some(Stop(InvalidValue(reason)));
        }
      }
      if failure.None? {
        var selected := SelectStableUsage(payloads);
        match selected
        case Ok(p) => return Ok(p);
        case Err(rejection) => failure := Some(Retry(Unstable(rejection)));
      }
      assert AttemptOf(feed, attempt) == failure.value;
      if failure.value.Stop? || attempt + 1 >= ATTEMPTS {
        return Err(failure.value.error);
      }
      var pause := pauses(attempt);
      if pause.Some? {
        return Err(RequestFailed(pause.value));
      }
    }
  }

  /** Attempt `a`, or the pause after it, ends the fetch with this error. */
  predicate Raises(feed: Feed, pauses: Pauses, a: nat, e: FetchError) {
    match AttemptOf(feed, a)
    case Success(_) => false
    case Stop(error) => e == error
    case Retry(error) =>
      if a >= 2 then e == error else pauses(a).Some? && e == RequestFailed(pauses(a).value)
  }

  /** An answer that reaches the caller was shared by two of three consecutive samples, or is the last of the three. */
  lemma StableAnswer(feed: Feed, attempt: nat)
    requires AttemptOf(feed, attempt).Success?
    ensures var r := AttemptOf(feed, attempt).payload;
            var samples := Samples(feed, attempt, SAMPLE_COUNT);
            && samples.Ok? && |samples.value| == 3
            && (Share(samples.value, SignatureOf(r)) >= 2 || r == samples.value[2])
  {
    SamplesCount(feed, attempt, SAMPLE_COUNT);
    SelectionSound(Samples(feed, attempt, SAMPLE_COUNT).value);
  }

  /**
   What one attempt comes to, by its three requests: the first that is not answered decides, a failure as worth another
   attempt and an invalid value as the end; otherwise the three samples do.
   */
  lemma AttemptOnRequests(feed: Feed, a: nat, k: nat)
    requires k <= 3 && (forall i: nat :: i < k ==> feed(a, i).Fetched?) && (k < 3 ==> !feed(a, k).Fetched?)
    ensures k < 3 && feed(a, k).Failed? ==> AttemptOf(feed, a) == Retry(RequestFailed(feed(a, k).reason))
    ensures k < 3 && feed(a, k).Invalid? ==> AttemptOf(feed, a) == Stop(InvalidValue(feed(a, k).reason))
    ensures k == 3 ==>
      var r := Select([feed(a, 0).payload, feed(a, 1).payload, feed(a, 2).payload]);
      AttemptOf(feed, a) == if r.Ok? then Success(r.value) else Retry(Unstable(r.error))
  {
    SamplesStep(feed, a, 0);
    SamplesStep(feed, a, 1);
    SamplesStep(feed, a, 2);
    hide Select, Samples;
    if k == 3 {
      assert feed(a, 0).Fetched? && feed(a, 1).Fetched? && feed(a, 2).Fetched?;
      var none: seq<Payload> := [];
      assert none + [feed(a, 0).payload] + [feed(a, 1).payload] + [feed(a, 2).payload] ==
        [feed(a, 0).payload, feed(a, 1).payload, feed(a, 2).payload];
    }
  }

  lemma SamplesStep(feed: Feed, a: nat, n: nat)
    ensures Samples(feed, a, 0) == Ok([])
    ensures Samples(feed, a, n).Err? ==> Samples(feed, a, n + 1) == Samples(feed, a, n)
    ensures Samples(feed, a, n).Ok? ==>
      match feed(a, n)
      case Fetched(p) => Samples(feed, a, n + 1) == Ok(Samples(feed, a, n).value + [p])
      case Failed(reason) => Samples(feed, a, n + 1) == Err(Retry(RequestFailed(reason)))
      case Invalid(reason) => Samples(feed, a, n + 1) == Err(Stop(InvalidValue(reason)))
  {}

  lemma {:induction false} SamplesCount(feed: Feed, attempt: nat, count: nat)
    ensures Samples(feed, attempt, count).Ok? ==> |Samples(feed, attempt, count).value| == count
    ensures Samples(feed, attempt, count).Err? ==> !Samples(feed, attempt, count).error.Success?
  {
    if count > 0 {
      SamplesCount(feed, attempt, count - 1);
    }
  }
}
