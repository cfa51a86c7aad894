/**
 * What the reset detector finds: its exact condition on two samples, and over whole lists the cycles of a counter with
 * scheduled resets, or of one that only falls to zero or changes its generation.
 */
module Cycles {
  import opened Wrappers
  import opened Rates
  import opened Consumption

  // ---------------------------------------------------------------- two samples

  /** The counter returned to zero. */
  predicate Emptied(p: Sample, c: Sample) { p.used > 0.0 && c.used == 0.0 }

  predicate Renamed(p: Sample, c: Sample) {
    p.generation.Some? && c.generation.Some? && p.generation != c.generation
  }

  /** The reset the earlier sample announced, or still names, lies between the two. */
  predicate Announced(p: Sample, c: Sample) { p.resetAt.Some? && p.at <= p.resetAt.value <= c.at }

  /** The two samples show that a cycle began at `b`. */
  predicate Tells(p: Sample, c: Sample, b: int) {
    if Emptied(p, c) then b == c.at
    else if c.resetAt.None? then Renamed(p, c) && b == c.at
    else if Announced(p, c) then p.resetAt == Some(b)
    else c.resetAt == Some(b) && p.resetAt != Some(b) && p.at < b <= c.at
  }

  /** The detector finds exactly what the fields tell. */
  lemma DetectorExactly(p: Sample, c: Sample, b: int)
    ensures ResetBoundary(p, c) == Some(b) <==> Tells(p, c, b)
  {}

  /** The two samples tell of no reset. */
  predicate Silent(p: Sample, c: Sample) {
    && !Emptied(p, c)
    && (c.resetAt.None? ==> !Renamed(p, c))
    && (c.resetAt.Some? ==> !Announced(p, c) && (c.resetAt != p.resetAt ==> !(p.at < c.resetAt.value <= c.at)))
  }

  lemma SilentExactly(p: Sample, c: Sample)
    ensures ResetBoundary(p, c).None? <==> Silent(p, c)
  {}

  // ---------------------------------------------------------------- a counter with scheduled resets

  type Schedule = set<int>

  predicate NoReset(resets: Schedule, from: int, to: int) { forall r :: r in resets ==> !(from < r <= to) }

  /** The last reset at or before `t`. */
  predicate LastBy(resets: Schedule, t: int, r: int) { r in resets && r <= t && NoReset(resets, r, t) }

  /** The first reset after `t`. */
  predicate NextAfter(resets: Schedule, t: int, r: int) {
    r in resets && t < r && forall x :: x in resets && t < x ==> r <= x
  }

  /** The sample carries the next reset, or still the one just passed. */
  predicate Carries(resets: Schedule, x: Sample) {
    x.resetAt.Some? && (NextAfter(resets, x.at, x.resetAt.value) || LastBy(resets, x.at, x.resetAt.value))
  }

  /** Samples in time order, each with its reset; usage never falls inside a cycle. */
  predicate Scheduled(resets: Schedule, s: seq<UsageSample>) {
    && (forall i :: 0 <= i < |s| ==> Carries(resets, s[i]))
    && (forall i :: 0 < i < |s| ==> s[i - 1].at < s[i].at)
    && (forall i :: 0 < i < |s| && NoReset(resets, s[i - 1].at, s[i].at) ==> s[i - 1].used <= s[i].used)
  }

  /** The sample was taken at the very instant of a reset and still carries it. */
  predicate OnTheInstant(x: Sample) { x.resetAt == Some(x.at) }

  /** Inside a cycle nothing is found, except the start of the cycle itself by a sample taken on that instant. */
  lemma InsideCycle(resets: Schedule, p: UsageSample, c: UsageSample)
    requires Carries(resets, p) && Carries(resets, c) && p.at < c.at && p.used <= c.used
    requires NoReset(resets, p.at, c.at)
    ensures ResetBoundary(p, c) == if OnTheInstant(p) then Some(p.at) else None
  {}

  lemma FoundByThen(p: Sample, c: Sample)
    requires p.at <= c.at
    ensures ResetBoundary(p, c).Some? ==> ResetBoundary(p, c).value <= c.at
  {}

  lemma ScheduledPart(resets: Schedule, s: seq<UsageSample>, n: nat)
    requires Scheduled(resets, s) && n <= |s|
    ensures Scheduled(resets, s[..n])
  {}

  lemma {:induction false} CycleStartByThen(resets: Schedule, s: seq<UsageSample>, partial: bool, maxGap: int)
    requires |s| > 0 && Scheduled(resets, s)
    ensures TallyOf(s, partial, maxGap).cycleStart <= s[|s| - 1].at
  {
    if |s| > 1 {
      var n := |s| - 1;
      ScheduledPart(resets, s, n);
      CycleStartByThen(resets, s[..n], partial, maxGap);
      FoundByThen(s[n - 1], s[n]);
      hide ResetBoundary, Carries;
    }
  }

  /** The reset `r` lies between positions `j - 1` and `j`, and no other one lies after it. */
  predicate LastCrossing(resets: Schedule, s: seq<UsageSample>, j: nat, r: int) {
    0 < j < |s| && s[j - 1].at < r <= s[j].at && LastBy(resets, s[|s| - 1].at, r)
  }

  lemma CrossingPart(resets: Schedule, s: seq<UsageSample>, j: nat, r: int)
    requires Scheduled(resets, s) && LastCrossing(resets, s, j, r) && j + 1 < |s|
    ensures LastCrossing(resets, s[..|s| - 1], j, r)
    ensures r <= s[|s| - 2].at && NoReset(resets, s[|s| - 2].at, s[|s| - 1].at)
    ensures s[|s| - 2].at == r ==> |s| - 2 == j
    ensures OnTheInstant(s[|s| - 2]) ==> s[|s| - 2].at == r
  {
    LaterThan(resets, s, j, |s| - 2);
  }

  lemma {:induction false} LaterThan(resets: Schedule, s: seq<UsageSample>, i: nat, j: nat)
    requires Scheduled(resets, s) && i <= j < |s|
    ensures s[i].at <= s[j].at && (i < j ==> s[i].at < s[j].at)
  {
    if i < j { LaterThan(resets, s, i, j - 1); }
  }

  lemma EmptiedFound(p: Sample, c: Sample)
    ensures Emptied(p, c) ==> ResetBoundary(p, c) == Some(c.at)
  {}

  /** The cycle after the pair that crosses the reset. */
  lemma CrossingStep(resets: Schedule, s: seq<UsageSample>, r: int, partial: bool, maxGap: int)
    requires Scheduled(resets, s) && |s| > 1 && s[|s| - 2].at < r <= s[|s| - 1].at
    ensures TallyOf(s, partial, maxGap).cycleStart == r <==> Tells(s[|s| - 2], s[|s| - 1], r)
    ensures TallyOf(s, partial, maxGap).cycleStart == r || Emptied(s[|s| - 2], s[|s| - 1]) ==>
      TallyOf(s, partial, maxGap).consumed == s[|s| - 1].used
  {
    hide ResetBoundary, Tells, Scheduled, Emptied;
    var n := |s| - 1;
    ScheduledPart(resets, s, n);
    CycleStartByThen(resets, s[..n], partial, maxGap);
    DetectorExactly(s[n - 1], s[n], r);
    EmptiedFound(s[n - 1], s[n]);
  }

  /** The cycle after a pair that crosses none. */
  lemma InsideStep(resets: Schedule, s: seq<UsageSample>, partial: bool, maxGap: int)
    requires Scheduled(resets, s) && |s| > 1 && NoReset(resets, s[|s| - 2].at, s[|s| - 1].at)
    ensures var t, u, p, c :=
      TallyOf(s[..|s| - 1], partial, maxGap), TallyOf(s, partial, maxGap), s[|s| - 2], s[|s| - 1];
      && u.cycleStart == (if OnTheInstant(p) then p.at else t.cycleStart)
      && u.consumed == (if OnTheInstant(p) then c.used else t.consumed + (c.used - p.used))
      && u.partial == (t.partial || c.at - p.at > maxGap * MICROS)
  {
    InsideCycle(resets, s[|s| - 2], s[|s| - 1]);
    hide ResetBoundary, Carries, NoReset;
  }

  /**
   The cycle starts at the last scheduled reset exactly if the two samples around it tell so, or the first one after it
   was taken on its instant, still carries it, and is followed by another. The usage is then all that the counter shows,
   and also if the counter shows zero on its first sample after the reset.
   */
  lemma {:induction false} CycleStartExactly(resets: Schedule, s: seq<UsageSample>, j: nat, r: int, partial: bool,
      maxGap: int)
    requires Scheduled(resets, s) && LastCrossing(resets, s, j, r)
    ensures TallyOf(s, partial, maxGap).cycleStart == r <==>
      Tells(s[j - 1], s[j], r) || (j + 1 < |s| && s[j].at == r && OnTheInstant(s[j]))
    ensures TallyOf(s, partial, maxGap).cycleStart == r || Emptied(s[j - 1], s[j]) ==>
      TallyOf(s, partial, maxGap).consumed == s[|s| - 1].used
  {
    hide ResetBoundary, Tells, TallyOf, Scheduled, Emptied;
    if j + 1 == |s| {
      CrossingStep(resets, s, r, partial, maxGap);
    } else {
      var n := |s| - 1;
      ScheduledPart(resets, s, n);
      CrossingPart(resets, s, j, r);
      CycleStartExactly(resets, s[..n], j, r, partial, maxGap);
      InsideStep(resets, s, partial, maxGap);
      assert s[..n][j - 1] == s[j - 1] && s[..n][j] == s[j];
    }
  }

  /** Some consecutive samples lie further apart than the gap limit. */
  predicate LongGap(s: seq<UsageSample>, maxGap: int) {
    exists i :: 0 < i < |s| && s[i].at - s[i - 1].at > maxGap * MICROS
  }

  lemma LongGapStep(s: seq<UsageSample>, maxGap: int)
    requires |s| > 1
    ensures LongGap(s, maxGap) <==>
      LongGap(s[..|s| - 1], maxGap) || s[|s| - 1].at - s[|s| - 2].at > maxGap * MICROS
  {
    var init := s[..|s| - 1];
    if LongGap(s, maxGap) {
      var i :| 0 < i < |s| && s[i].at - s[i - 1].at > maxGap * MICROS;
      if i < |init| { assert init[i].at - init[i - 1].at > maxGap * MICROS; }
    }
    if LongGap(init, maxGap) {
      var i :| 0 < i < |init| && init[i].at - init[i - 1].at > maxGap * MICROS;
      assert s[i].at - s[i - 1].at > maxGap * MICROS;
    }
  }

  /** Without a reset the cycle starts with the list, and the usage is the rise. */
  lemma {:induction false} OneCycleTally(resets: Schedule, s: seq<UsageSample>, partial: bool, maxGap: int)
    requires |s| > 0 && Scheduled(resets, s) && NoReset(resets, s[0].at, s[|s| - 1].at)
    ensures var t := TallyOf(s, partial, maxGap);
      && t.cycleStart == s[0].at && t.partial == (partial || LongGap(s, maxGap))
      && t.consumed == s[|s| - 1].used - (if |s| > 1 && OnTheInstant(s[0]) then 0.0 else s[0].used)
  {
    var n := |s| - 1;
    if n > 0 {
      hide ResetBoundary, TallyOf, Carries, LongGap;
      ScheduledPart(resets, s, n);
      LaterThan(resets, s, 0, n - 1);
      OneCycleTally(resets, s[..n], partial, maxGap);
      LongGapStep(s, maxGap);
      InsideStep(resets, s, partial, maxGap);
      if OnTheInstant(s[n - 1]) { OnlyFirstOnInstant(resets, s, n - 1); }
    } else {
      hide Carries;
    }
  }

  lemma OnlyFirstOnInstant(resets: Schedule, s: seq<UsageSample>, i: nat)
    requires Scheduled(resets, s) && i < |s| && NoReset(resets, s[0].at, s[|s| - 1].at) && OnTheInstant(s[i])
    ensures i == 0
  {
    LaterThan(resets, s, 0, i);
    LaterThan(resets, s, i, |s| - 1);
  }

  // ---------------------------------------------------------------- lists in which every reset is told in time

  predicate Crosses(resets: Schedule, s: seq<UsageSample>, i: nat)
    requires 0 < i < |s|
  {
    !NoReset(resets, s[i - 1].at, s[i].at)
  }

  /** The two samples around every reset tell the last one between them. */
  predicate Told(resets: Schedule, s: seq<UsageSample>) {
    forall i: nat :: 0 < i < |s| && Crosses(resets, s, i) ==> ToldAt(resets, s, i)
  }

  predicate ToldAt(resets: Schedule, s: seq<UsageSample>, i: nat)
    requires 0 < i < |s|
  {
    exists r :: r in resets && s[i - 1].at < r && LastBy(resets, s[i].at, r) && Tells(s[i - 1], s[i], r)
  }

  lemma ToldPart(resets: Schedule, s: seq<UsageSample>)
    requires Told(resets, s) && |s| > 0
    ensures Told(resets, s[..|s| - 1])
  {
    hide Tells, NoReset, LastBy;
    var init := s[..|s| - 1];
    forall i: nat | 0 < i < |init| && Crosses(resets, init, i) ensures ToldAt(resets, init, i) {
      assert Crosses(resets, s, i) && ToldAt(resets, s, i);
    }
  }

  /** Nothing is missed but where samples are too far apart. */
  lemma {:induction false} ToldIsComplete(resets: Schedule, s: seq<UsageSample>, partial: bool, maxGap: int)
    requires |s| > 0 && Scheduled(resets, s) && Told(resets, s)
    ensures TallyOf(s, partial, maxGap).partial == (partial || LongGap(s, maxGap))
  {
    var n := |s| - 1;
    if n > 0 {
      hide ResetBoundary, Carries, LongGap, Told, NoReset, LastBy;
      ScheduledPart(resets, s, n);
      ToldPart(resets, s);
      ToldIsComplete(resets, s[..n], partial, maxGap);
      LongGapStep(s, maxGap);
      if Crosses(resets, s, n) {
        ToldStep(resets, s, partial, maxGap);
      } else {
        InsideStep(resets, s, partial, maxGap);
      }
    }
  }

  lemma ToldStep(resets: Schedule, s: seq<UsageSample>, partial: bool, maxGap: int)
    requires |s| > 1 && Scheduled(resets, s) && Told(resets, s) && Crosses(resets, s, |s| - 1)
    ensures var t, n := TallyOf(s[..|s| - 1], partial, maxGap), |s| - 1;
      TallyOf(s, partial, maxGap).partial == (t.partial || s[n].at - s[n - 1].at > maxGap * MICROS)
  {
    hide ResetBoundary, Carries, Tells, LastBy, NoReset;
    var n := |s| - 1;
    assert ToldAt(resets, s, n);
    var r :| r in resets && s[n - 1].at < r && LastBy(resets, s[n].at, r) && Tells(s[n - 1], s[n], r);
    DetectorExactly(s[n - 1], s[n], r);
  }

  /**
   The whole account of a counter with scheduled resets that are told in time: the cycle starts at the last reset at or
   before the last sample, the usage is the usage since that reset, and the run is partial only if it starts so or has a
   long gap.
   */
  lemma ScheduledTally(resets: Schedule, s: seq<UsageSample>, j: nat, r: int, partial: bool, maxGap: int)
    requires Scheduled(resets, s) && Told(resets, s) && LastCrossing(resets, s, j, r)
    ensures TallyOf(s, partial, maxGap) == Tally(s[|s| - 1].used, r, partial || LongGap(s, maxGap))
  {
    hide ResetBoundary, Carries, LongGap, TallyOf, Tells, Scheduled;
    ToldIsComplete(resets, s, partial, maxGap);
    CycleStartExactly(resets, s, j, r, partial, maxGap);
    LastIsTold(resets, s, j, r);
  }

  lemma LastIsTold(resets: Schedule, s: seq<UsageSample>, j: nat, r: int)
    requires Scheduled(resets, s) && Told(resets, s) && LastCrossing(resets, s, j, r)
    ensures Tells(s[j - 1], s[j], r)
  {
    hide Tells, Carries;
    LaterThan(resets, s, j, |s| - 1);
    assert Crosses(resets, s, j) && ToldAt(resets, s, j);
  }

  /**
   Between two samples that carry the next reset or the one just passed, the last reset between them is told exactly if
   the earlier one announced it, or the later one still carries it and the earlier one named no other; a later sample at
   zero must lie on the very instant.
   */
  lemma ToldExactly(resets: Schedule, p: Sample, c: Sample, r: int)
    requires Carries(resets, p) && Carries(resets, c) && p.at < r && LastBy(resets, c.at, r)
    ensures Tells(p, c, r) <==>
      if Emptied(p, c) then c.at == r
      else p.resetAt == Some(r) || (c.resetAt == Some(r) && !Announced(p, c))
  {}

  /** Samples that always carry the next reset tell every reset, if no second one lies between them. */
  lemma NextResetIsTold(resets: Schedule, p: Sample, c: Sample, r: int)
    requires p.resetAt.Some? && NextAfter(resets, p.at, p.resetAt.value) && c.resetAt.Some?
    requires p.at < r && LastBy(resets, c.at, r) && NoReset(resets, p.at, r - 1) && (Emptied(p, c) ==> c.at == r)
    ensures Tells(p, c, r)
  {}

  /** After a reset the average starts over with the usage since then, by the time since then. */
  lemma AverageRestarts(s: seq<UsageSample>, r: int, base: Base, maxGap: int)
    requires |s| > 1 && Tells(s[|s| - 2], s[|s| - 1], r)
    ensures var c := s[|s| - 1];
      Ema(s, base, maxGap) == if c.at <= r then None else Some(c.used / ((c.at - r) as real / 1000000.0))
  {
    DetectorExactly(s[|s| - 2], s[|s| - 1], r);
    hide ResetBoundary, Tells;
  }

  /**
   Where no reset is told, samples that are further apart than the gap limit, or not in order, leave the average alone.
   The first rate starts it, and every further one draws it towards itself, the older part fading with the time between.
   */
  lemma AverageMoves(s: seq<UsageSample>, base: Base, maxGap: int)
    requires |s| > 1 && Silent(s[|s| - 2], s[|s| - 1])
    ensures var p, c, before := s[|s| - 2], s[|s| - 1], Ema(s[..|s| - 1], base, maxGap);
      if c.at <= p.at || c.at - p.at > maxGap * 1_000_000 then Ema(s, base, maxGap) == before
      else Ema(s, base, maxGap) == Some(Drawn(before, RateBetween(p, c), Decay(base, c.at - p.at)))
  {
    var p, c, before := s[|s| - 2], s[|s| - 1], Ema(s[..|s| - 1], base, maxGap);
    SilentExactly(p, c);
    hide ResetBoundary, Silent, Decay, Slope, Blend, RateBetween, Drawn;
    if 0 < c.at - p.at <= maxGap * 1_000_000 {
      SlopeIsRate(p, c);
      BlendDraws(before, RateBetween(p, c), Decay(base, c.at - p.at));
    }
  }

  /** The average between the rate and what it was before, of which the fraction `kept` of the distance is left. */
  function Drawn(before: Option<real>, rate: real, kept: real): real {
    if before.None? then rate else rate + kept * (before.value - rate)
  }

  lemma BlendDraws(before: Option<real>, rate: real, kept: real)
    ensures Blend(before, rate, 1.0 - kept) == Drawn(before, rate, kept)
  {
    if before.Some? { BlendDecay(before.value, rate, kept); }
  }

  /** Usage per second, none when the counter fell. */
  function RateBetween(p: Sample, c: Sample): real
    requires p.at < c.at
  {
    if c.used <= p.used then 0.0 else (c.used - p.used) / ((c.at - p.at) as real / 1000000.0)
  }

  lemma SlopeIsRate(p: Sample, c: Sample)
    requires p.at < c.at
    ensures Max(0.0, Slope(p, c)) == RateBetween(p, c)
  {
    DivisionSign(c.used - p.used, Seconds(c.at - p.at));
  }

  // ---------------------------------------------------------------- counters without reset times

  /** Samples in time order without reset times; usage falls only to zero or with a change of the generation. */
  predicate Unscheduled(s: seq<UsageSample>) {
    && (forall i :: 0 <= i < |s| ==> s[i].resetAt.None?)
    && (forall i: nat :: 0 < i < |s| ==> RisesOrBegins(s, i))
  }

  predicate RisesOrBegins(s: seq<UsageSample>, i: nat)
    requires 0 < i < |s|
  {
    s[i - 1].at < s[i].at && (s[i - 1].used <= s[i].used || Begins(s, i))
  }

  /** A cycle is seen to begin with position `i`. */
  predicate Begins(s: seq<UsageSample>, i: nat)
    requires 0 < i < |s|
  {
    Emptied(s[i - 1], s[i]) || Renamed(s[i - 1], s[i])
  }

  predicate SameBeginnings(t: seq<UsageSample>, s: seq<UsageSample>)
    requires |t| <= |s|
  {
    forall i: nat :: 0 < i < |t| ==> (Begins(t, i) <==> Begins(s, i))
  }

  /** The last beginning of a cycle is position `j`, or none is seen and `j` is zero. */
  predicate LastBeginning(s: seq<UsageSample>, j: nat) {
    j < |s| && (j > 0 ==> Begins(s, j)) && forall i: nat :: j < i < |s| ==> !Begins(s, i)
  }

  lemma LastBeginningPart(s: seq<UsageSample>, j: nat)
    requires Unscheduled(s) && LastBeginning(s, j) && j + 1 < |s|
    ensures LastBeginning(s[..|s| - 1], j) && !Begins(s, |s| - 1)
  {
    UnscheduledPart(s);
    hide Begins, Unscheduled;
    var init := s[..|s| - 1];
    forall i: nat | j < i < |init| ensures !Begins(init, i) { assert !Begins(s, i); }
  }

  lemma UnscheduledPart(s: seq<UsageSample>)
    requires |s| > 1 && Unscheduled(s)
    ensures Unscheduled(s[..|s| - 1])
    ensures SameBeginnings(s[..|s| - 1], s)
  {
    hide Emptied, Renamed;
    var init := s[..|s| - 1];
    forall i: nat | 0 < i < |init|
      ensures (Begins(init, i) <==> Begins(s, i)) && RisesOrBegins(init, i)
    {
      assert init[i - 1] == s[i - 1] && init[i] == s[i];
      assert RisesOrBegins(s, i);
    }
  }

  lemma UnscheduledFinds(p: Sample, c: Sample)
    requires c.resetAt.None?
    ensures ResetBoundary(p, c) == if Emptied(p, c) || Renamed(p, c) then Some(c.at) else None
  {}

  lemma UnscheduledStep(s: seq<UsageSample>, partial: bool, maxGap: int)
    requires |s| > 1 && Unscheduled(s)
    ensures var t, u, p, c :=
      TallyOf(s[..|s| - 1], partial, maxGap), TallyOf(s, partial, maxGap), s[|s| - 2], s[|s| - 1];
      && u.partial == (t.partial || c.at - p.at > maxGap * MICROS)
      && u.cycleStart == (if Begins(s, |s| - 1) then c.at else t.cycleStart)
      && u.consumed == (if Begins(s, |s| - 1) then c.used else t.consumed + (c.used - p.used))
  {
    UnscheduledFinds(s[|s| - 2], s[|s| - 1]);
    hide ResetBoundary, Emptied, Renamed;
    assert RisesOrBegins(s, |s| - 1);
  }

  lemma NoGapAlone(s: seq<UsageSample>, maxGap: int)
    requires |s| == 1
    ensures !LongGap(s, maxGap)
  {}

  /**
   Without reset times the cycle starts at the last sample that shows zero after more, or another generation, and the
   usage is all the counter has risen since.
   */
  lemma {:induction false} UnscheduledTally(s: seq<UsageSample>, j: nat, partial: bool, maxGap: int)
    requires Unscheduled(s) && LastBeginning(s, j)
    ensures TallyOf(s, partial, maxGap) ==
      Tally(s[|s| - 1].used - (if j == 0 then s[0].used else 0.0), s[j].at, partial || LongGap(s, maxGap))
  {
    hide Begins, LongGap, ResetBoundary;
    var n := |s| - 1;
    if n == 0 {
      NoGapAlone(s, maxGap);
    } else {
      UnscheduledPart(s);
      UnscheduledStep(s, partial, maxGap);
      LongGapStep(s, maxGap);
      if j < n {
        LastBeginningPart(s, j);
        UnscheduledTally(s[..n], j, partial, maxGap);
      } else {
        UnscheduledPartial(s[..n], partial, maxGap);
      }
    }
  }

  lemma {:induction false} UnscheduledPartial(s: seq<UsageSample>, partial: bool, maxGap: int)
    requires |s| > 0 && Unscheduled(s)
    ensures TallyOf(s, partial, maxGap).partial == (partial || LongGap(s, maxGap))
  {
    hide LongGap, ResetBoundary, Begins;
    if |s| == 1 {
      NoGapAlone(s, maxGap);
    } else {
      UnscheduledPart(s);
      UnscheduledStep(s, partial, maxGap);
      LongGapStep(s, maxGap);
      UnscheduledPartial(s[..|s| - 1], partial, maxGap);
    }
  }

  // ---------------------------------------------------------------- reports across a reset

  /**
   The report on a window in which a counter with scheduled resets was reset: the usage since the last reset, complete
   coverage exactly if the last sample is fresh, a baseline lies at the start, and no gap is long, and a forecast at the
   usage since the reset by the time since, unless the rate is smoothed.
   */
  lemma ReportAfterReset(resets: Schedule, s: seq<UsageSample>, q: Request, j: nat, r: int)
    requires |s| > 0
    requires var o := Observations(s, q.start, q.now);
      Scheduled(resets, o) && Told(resets, o) && LastCrossing(resets, o, j, r)
    ensures var o, w := Observations(s, q.start, q.now), Report(s, q);
      var last := o[|o| - 1];
      && w.consumed == last.used && w.sampleCount == |o|
      && (w.coverage == Stale <==> q.now - last.at > q.staleAfter * MICROS)
      && (w.coverage == Complete <==>
           q.now - last.at <= q.staleAfter * MICROS && !StartsPartial(s, q) && !LongGap(o, q.maxGap))
      && (w.coverage != Stale && q.smoothing.None? && r < last.at ==>
           w.secondsToExhaustion == Forecast(last.used, last.used / ((last.at - r) as real / 1000000.0)))
  {
    var o := Observations(s, q.start, q.now);
    hide TallyOf, LongGap, Observations, StartsPartial, Forecast, Scheduled, Told, Ema;
    ScheduledTally(resets, o, j, r, StartsPartial(s, q), q.maxGap);
  }

  // ---------------------------------------------------------------- one rollover

  function Reading(at: int, used: real, resetAt: int): Sample {
    Sample("", "", 0, at * MICROS, used, Some(resetAt * MICROS), None)
  }

  /**
   An ordinary rollover: 80 percent before the reset after an hour, 5 percent five minutes after it. The reset is found
   where it was announced, although the later sample carries the next one already.
   */
  lemma OrdinaryRollover(base: Base)
    ensures var s := [Reading(0, 80.0, 3_600), Reading(3_900, 5.0, 21_600)];
      && TallyOf(s, false, 7_200) == Tally(5.0, 3_600_000_000, false)
      && Ema(s, base, 7_200) == Some(5.0 / 300.0)
  {
    var s: seq<UsageSample> := [Reading(0, 80.0, 3_600), Reading(3_900, 5.0, 21_600)];
    AverageRestarts(s, 3_600_000_000, base, 7_200);
    assert s[..1] == [Reading(0, 80.0, 3_600)];
    hide Ema;
  }

  /**
   A reset is missed if the sample before it still carries the one before, and the sample after it carries the next:
   what was used since is not counted, and the run is partial only if usage fell.
   */
  lemma MissedRollover()
    ensures var resets: Schedule := {0, 3_600 * MICROS, 7_200 * MICROS};
      var s: seq<UsageSample> := [Reading(100, 10.0, 0), Reading(3_900, 15.0, 7_200)];
      && (forall i :: 0 <= i < |s| ==> Carries(resets, s[i])) && LastCrossing(resets, s, 1, 3_600 * MICROS)
      && TallyOf(s, false, 7_200) == Tally(5.0, 100 * MICROS, false)
  {
    var s: seq<UsageSample> := [Reading(100, 10.0, 0), Reading(3_900, 15.0, 7_200)];
    assert s[..1] == [Reading(100, 10.0, 0)];
  }
}
