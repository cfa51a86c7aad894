/** Projected usage at the next reset, from the samples of the current reset generation. */
module Tracker {
  import opened Wrappers
  import opened Rates

  const MAX_SAMPLES := 500_000
  const TIME_CONSTANT_SECONDS := 3_600
  const STALE_SECONDS := 900
  const POOLS := {"main", "gpt-5.3-codex-spark"}
  const WINDOWS := {18_000, 604_800, 2_592_000}

  datatype Coverage = Insufficient | Stale | Complete

  datatype Evidence = Evidence(pool: string, window: int, generation: string, rate: real, projected: real,
                               coverage: Coverage, sampleCount: nat, firstAt: int, lastAt: int)

  datatype Error = TooManySamples

  predicate Ascending(s: seq<UsageSample>) { forall i :: 0 < i < |s| ==> s[i - 1].at < s[i].at }

  predicate Rising(s: seq<UsageSample>) { forall i :: 0 < i < |s| ==> s[i - 1].used < s[i].used }

  predicate Dense(s: seq<UsageSample>) {
    forall i :: 0 < i < |s| ==> s[i].at - s[i - 1].at <= TIME_CONSTANT_SECONDS * MICROS
  }

  predicate Uniform(s: seq<UsageSample>) {
    forall i :: 0 <= i < |s| ==>
      && s[i].resetAt == s[|s| - 1].resetAt && s[i].account == s[0].account
      && s[i].pool == s[0].pool && s[i].window == s[0].window
  }

  predicate Tracked(s: UsageSample) { s.pool in POOLS && s.window in WINDOWS }

  predicate Usable(samples: seq<UsageSample>, now: int) {
    && |samples| > 0 && samples[|samples| - 1].generation.Some?
    && (forall i :: 0 <= i < |samples| ==> samples[i].at <= now)
    && Ascending(samples)
  }

  /** The samples after the last one of another reset generation. */
  function TrailingRun(samples: seq<UsageSample>): (run: seq<UsageSample>)
    requires |samples| > 0
    ensures 0 < |run| <= |samples| && run == samples[|samples| - |run|..]
  {
    samples[RunStart(samples, |samples| - 1)..]
  }

  function RunStart(samples: seq<UsageSample>, i: nat): (start: nat)
    requires i < |samples|
    ensures start <= i
  {
    if i > 0 && samples[i - 1].generation == samples[|samples| - 1].generation then RunStart(samples, i - 1) else i
  }

  /** The trailing run has one generation throughout and cannot be extended to the left. */
  lemma {:induction false} TrailingRunMaximal(samples: seq<UsageSample>, i: nat)
    requires i < |samples|
    requires forall k :: i <= k < |samples| ==> samples[k].generation == samples[|samples| - 1].generation
    ensures var start := RunStart(samples, i);
            && (forall k :: start <= k < |samples| ==> samples[k].generation == samples[|samples| - 1].generation)
            && (start > 0 ==> samples[start - 1].generation != samples[|samples| - 1].generation)
  {
    if i > 0 && samples[i - 1].generation == samples[|samples| - 1].generation {
      TrailingRunMaximal(samples, i - 1);
    }
  }

  /** What a run of two or more samples must satisfy before anything is projected from it. */
  predicate Projectable(run: seq<UsageSample>) {
    && |run| >= 2 && run[|run| - 1].resetAt.Some? && Uniform(run) && Tracked(run[0])
    && Dense(run)
    && Rising(run)
    && run[|run| - 1].resetAt.value > run[|run| - 1].at
  }

  function Projected(used: real, rate: real, untilReset: int): real { Min(100.0, used + rate * Seconds(untilReset)) }

  function Project(run: seq<UsageSample>, now: int, base: Base): Evidence
    requires Projectable(run) && run[|run| - 1].generation.Some?
  {
    var last, rate := run[|run| - 1], EmaRate(run, base, TIME_CONSTANT_SECONDS);
    Evidence(last.pool, last.window, last.generation.value, rate,
             Projected(last.used, rate, last.resetAt.value - last.at),
             if now - last.at > STALE_SECONDS * MICROS then Stale else Complete,
             |run|, run[0].at, last.at)
  }

  predicate SingleUsable(s: UsageSample) {
    s.resetAt.Some? && Tracked(s) && s.resetAt.value > s.at
  }

  /** The evidence, if there is any: nothing is assumed about when the rate is positive. */
  function EvidenceOf(samples: seq<UsageSample>, now: int, base: Base): Option<Evidence> {
    if !Usable(samples, now) then None
    else
      var run := TrailingRun(samples);
      if |run| == 1 then
        if SingleUsable(run[0])
        then Some(Evidence(run[0].pool, run[0].window, run[0].generation.value, 0.0, run[0].used, Insufficient, 1,
                           run[0].at, run[0].at))
        else None
      else if Projectable(run) then Some(Project(run, now, base)) else None
  }

  method CalculateTrackerEvidence(samples: seq<UsageSample>, now: int, base: Base)
    returns (r: Result<Option<Evidence>, Error>)
    ensures r == if |samples| > MAX_SAMPLES then Err(TooManySamples) else Ok(EvidenceOf(samples, now, base))
  {
    hide EmaRate, RunStart;
    if |samples| > MAX_SAMPLES { return Err(TooManySamples); }
    if |samples| == 0 || samples[|samples| - 1].generation.None? { return Ok(None); }
    if exists i :: 0 <= i < |samples| && samples[i].at > now { return Ok(None); }
    if !Ascending(samples) { return Ok(None); }
    var run := TrimToGeneration(samples);
    if |run| < 2 {
      if !SingleUsable(run[0]) { return Ok(None); }
      return Ok(Some(Evidence(run[0].pool, run[0].window, run[0].generation.value, 0.0, run[0].used, Insufficient, 1,
                              run[0].at, run[0].at)));
    }
    var first, last := run[0], run[|run| - 1];
    if last.resetAt.None? || !Uniform(run) || !Tracked(first) { return Ok(None); }
    if !Dense(run) { return Ok(None); }
    if !Rising(run) { return Ok(None); }
    RunOrdered(samples);
    var elapsed := last.at - first.at;
    if elapsed <= 0 { return Ok(None); }
    var rate := ComputeEmaRate(run, base, TIME_CONSTANT_SECONDS);
    if rate <= 0.0 {
      if last.resetAt.value > last.at {
        RateBetweenSlopes(run, base);
      }
      return Ok(None);
    }
    if last.resetAt.value <= last.at { return Ok(None); }
    var projected := Projected(last.used, rate, last.resetAt.value - last.at);
    return Ok(Some(Evidence(last.pool, last.window, last.generation.value, rate, projected,
                            if now - last.at > STALE_SECONDS * MICROS then Stale else Complete,
                             |run|, first.at, last.at)));
  }

  method TrimToGeneration(samples: seq<UsageSample>) returns (run: seq<UsageSample>)
    requires |samples| > 0
    ensures run == TrailingRun(samples)
  {
    run := samples;
    var index := |samples| - 1;
    while index >= 0
      invariant -1 <= index < |samples|
      invariant index < |samples| - 1 ==> RunStart(samples, |samples| - 1) == RunStart(samples, index + 1)
      invariant run == samples
    {
      if samples[index].generation != samples[|samples| - 1].generation {
        run := samples[index + 1..];
        break;
      }
      index := index - 1;
    }
  }

  lemma RunOrdered(samples: seq<UsageSample>)
    requires |samples| > 0 && Ascending(samples)
    ensures var run := TrailingRun(samples);
            Ascending(run) && (|run| >= 2 ==> run[0].at < run[|run| - 1].at)
  {
    hide RunStart;
    var run := TrailingRun(samples);
    var offset := |samples| - |run|;
    forall i | 0 < i < |run| ensures run[i - 1].at < run[i].at {
      assert run[i - 1] == samples[offset + i - 1] && run[i] == samples[offset + i];
    }
    Ascends(run);
  }

  lemma {:induction false} Ascends(run: seq<UsageSample>)
    requires Ascending(run)
    ensures forall i, j :: 0 <= i < j < |run| ==> run[i].at < run[j].at
  {
    if |run| > 1 {
      var n := |run| - 1;
      var init := run[..n];
      assert forall i :: 0 <= i < n ==> init[i] == run[i];
      Ascends(init);
      forall i | 0 <= i < n ensures run[i].at < run[n].at {
        assert i == n - 1 || init[i].at < init[n - 1].at;
      }
    }
  }

  // ---------------------------------------------------------------- main results

  /** No pair of samples behind a projection crosses a reset. */
  lemma ProjectableCrossesNoReset(run: seq<UsageSample>)
    requires Projectable(run) && Ascending(run)
    ensures forall i :: 0 < i < |run| ==> !CrossesReset(run[i - 1], run[i])
  {
    Ascends(run);
    forall i | 0 < i < |run| ensures !CrossesReset(run[i - 1], run[i]) {
      assert run[i - 1].used < run[i].used;
      assert run[i].at <= run[|run| - 1].at;
      assert run[i].resetAt == run[i - 1].resetAt == run[|run| - 1].resetAt;
    }
  }

  /** The slopes between consecutive samples. */
  function Slopes(run: seq<UsageSample>): (r: seq<real>)
    requires |run| > 0 && Ascending(run)
    ensures |r| == |run| - 1
  {
    seq(|run| - 1, i requires 0 <= i < |run| - 1 => Step(run, i))
  }

  function Step(run: seq<UsageSample>, i: nat): real
    requires i + 1 < |run| && Ascending(run)
  {
    assert run[(i + 1) - 1].at < run[i + 1].at;
    Slope(run[i], run[i + 1])
  }

  lemma CycleRatesExtends(run: seq<UsageSample>, n: nat)
    requires 1 <= n < |run| && Ascending(run) && Rising(run) && Dense(run) && !CrossesReset(run[n - 1], run[n])
    ensures CycleRates(run[..n + 1], TIME_CONSTANT_SECONDS)
         == CycleRates(run[..n], TIME_CONSTANT_SECONDS) + [Step(run, n - 1)]
    ensures Step(run, n - 1) > 0.0
  {
    hide ResetBoundary, Slope;
    assert run[..n + 1][..n] == run[..n];
    SlopePositive(run[n - 1], run[n]);
  }

  /** The rates averaged for a projection are exactly the slopes of its consecutive samples, and all are positive. */
  lemma {:induction false} RatesAreSlopes(run: seq<UsageSample>, n: nat)
    requires 1 <= n <= |run| && Ascending(run) && Rising(run) && Dense(run)
    requires forall i :: 0 < i < |run| ==> !CrossesReset(run[i - 1], run[i])
    ensures CycleRates(run[..n], TIME_CONSTANT_SECONDS) == Slopes(run)[..n - 1]
    ensures forall i :: 0 <= i < n - 1 ==> Slopes(run)[i] > 0.0
  {
    if n > 1 {
      RatesAreSlopes(run, n - 1);
      CycleRatesExtends(run, n - 1);
      hide CycleRates, CrossesReset, Step, Ascending, Rising, Dense;
      assert Slopes(run)[n - 2] == Step(run, n - 2);
    }
  }

  lemma SlopePositive(p: Sample, c: Sample)
    requires p.at < c.at && c.used > p.used
    ensures Slope(p, c) > 0.0
  {
    DivisionSign(c.used - p.used, Seconds(c.at - p.at));
  }

  /** The projected rate is positive and lies between any bounds of the slopes of consecutive samples. */
  lemma RateBetweenSlopes(run: seq<UsageSample>, base: Base)
    requires Projectable(run) && Ascending(run)
    ensures EmaRate(run, base, TIME_CONSTANT_SECONDS) > 0.0
    ensures forall lo, hi :: Within(Slopes(run), lo, hi) ==> lo <= EmaRate(run, base, TIME_CONSTANT_SECONDS) <= hi
  {
    ProjectableCrossesNoReset(run);
    RatesAreSlopes(run, |run|);
    hide Slopes, EmaRate, Projectable, CycleRates, CrossesReset, Within, Ascending;
    assert run[..|run|] == run;
    var rates := Slopes(run);
    assert rates[..|run| - 1] == rates;
    forall lo, hi | Within(rates, lo, hi) ensures lo <= EmaRate(run, base, TIME_CONSTANT_SECONDS) <= hi {
      RateInHull(run, base, TIME_CONSTANT_SECONDS, lo, hi);
    }
    var least, most := Bounds(rates);
    RateInHull(run, base, TIME_CONSTANT_SECONDS, least, most);
  }

  /** Some positive number is below every rate, and some number above. */
  lemma {:induction false} Bounds(rates: seq<real>) returns (least: real, most: real)
    requires forall k :: 0 <= k < |rates| ==> rates[k] > 0.0
    ensures least > 0.0 && Within(rates, least, most)
  {
    least, most := 1.0, 1.0;
    if |rates| > 0 {
      var n := |rates| - 1;
      var below, above := Bounds(rates[..n]);
      least, most := Min(below, rates[n]), Max(above, rates[n]);
      assert forall k :: 0 <= k < n ==> rates[..n][k] == rates[k];
    }
  }

  /** The run behind evidence from two or more samples: one cycle of one generation, in order, and maximal. */
  lemma EvidenceRun(samples: seq<UsageSample>, now: int, base: Base)
    requires EvidenceOf(samples, now, base).Some? && EvidenceOf(samples, now, base).value.sampleCount >= 2
    ensures |samples| > 0 && Usable(samples, now)
    ensures var e, run := EvidenceOf(samples, now, base).value, TrailingRun(samples);
            && e == Project(run, now, base) && Projectable(run) && Ascending(run)
            && e.sampleCount == |run| && e.firstAt == run[0].at && e.lastAt == run[|run| - 1].at <= now
            && (forall k :: 0 <= k < |run| ==> run[k].generation == Some(e.generation))
            && (|run| < |samples| ==> samples[|samples| - |run| - 1].generation != Some(e.generation))
            && (forall i :: 0 < i < |run| ==> !CrossesReset(run[i - 1], run[i]))
  {
    hide EmaRate, CrossesReset;
    RunOrdered(samples);
    TrailingRunMaximal(samples, |samples| - 1);
    ProjectableCrossesNoReset(TrailingRun(samples));
  }

  /** What the numbers of evidence from two or more samples tell its reader. */
  lemma EvidenceSound(samples: seq<UsageSample>, now: int, base: Base)
    requires EvidenceOf(samples, now, base).Some? && EvidenceOf(samples, now, base).value.sampleCount >= 2
    ensures |samples| > 0 && Ascending(TrailingRun(samples))
    ensures var e, run := EvidenceOf(samples, now, base).value, TrailingRun(samples);
            && e.rate > 0.0
            && (forall lo, hi :: Within(Slopes(run), lo, hi) ==> lo <= e.rate <= hi)
            && run[|run| - 1].used <= e.projected <= 100.0
  {
    EvidenceRun(samples, now, base);
    var run := TrailingRun(samples);
    RateBetweenSlopes(run, base);
    hide EmaRate, EvidenceOf, TrailingRun, Slopes, Within, Ascending, Dense, Rising, Uniform, CrossesReset, Projected;
    var last := run[|run| - 1];
    ProjectionRises(last.used, EmaRate(run, base, TIME_CONSTANT_SECONDS), last.resetAt.value - last.at);
  }

  lemma ProjectionRises(used: real, rate: real, untilReset: int)
    requires rate > 0.0 && untilReset > 0 && used <= 100.0
    ensures used <= Projected(used, rate, untilReset) <= 100.0
  {
    assert rate * Seconds(untilReset) > 0.0;
  }

  /** Where a line through the sample with the given slope, in percent per second, is at time `t`. */
  function LineAt(x: Sample, slope: real, t: int): real { x.used + slope * ((t - x.at) as real / 1000000.0) }

  /**
   The projection is where the line from the last sample with the reported rate is at the reset, or 100 if it is there
   or above by then.
   */
  lemma ProjectionOnLine(samples: seq<UsageSample>, now: int, base: Base)
    requires EvidenceOf(samples, now, base).Some? && EvidenceOf(samples, now, base).value.sampleCount >= 2
    ensures |samples| > 0 && samples[|samples| - 1].resetAt.Some?
    ensures var e, last := EvidenceOf(samples, now, base).value, samples[|samples| - 1];
            var there := LineAt(last, e.rate, last.resetAt.value);
            && last.at < last.resetAt.value
            && e.projected == if there >= 100.0 then 100.0 else there
  {
    hide EmaRate, EvidenceOf, TrailingRun, RunStart, Ascending, Dense, Rising, Uniform, CrossesReset, LineAt, Projected;
    EvidenceRun(samples, now, base);
    var run, last := TrailingRun(samples), samples[|samples| - 1];
    assert run[|run| - 1] == last;
    LineAhead(last, EmaRate(run, base, TIME_CONSTANT_SECONDS), last.resetAt.value);
  }

  lemma LineAhead(x: Sample, slope: real, t: int)
    ensures Projected(x.used, slope, t - x.at) == if LineAt(x, slope, t) >= 100.0 then 100.0 else LineAt(x, slope, t)
  {}

  /** All samples of the run lie on the line through its first sample. */
  predicate Straight(run: seq<UsageSample>, slope: real) {
    forall i :: 0 <= i < |run| ==> run[i].used == LineAt(run[0], slope, run[i].at)
  }

  lemma LineSlope(x: Sample, slope: real, p: Sample, c: Sample)
    requires p.at < c.at && p.used == LineAt(x, slope, p.at) && c.used == LineAt(x, slope, c.at)
    ensures Slope(p, c) == slope
    ensures forall t :: LineAt(c, slope, t) == LineAt(x, slope, t)
  {
    var g, g1, g2 := Seconds(c.at - p.at), Seconds(p.at - x.at), Seconds(c.at - x.at);
    assert g == g2 - g1;
    assert slope * g == slope * g2 - slope * g1;
    Quotient(c.used - p.used, slope, g);
    forall t ensures LineAt(c, slope, t) == LineAt(x, slope, t) {
      var d, d' := Seconds(t - c.at), Seconds(t - x.at);
      assert d' == d + g2;
      assert slope * d' == slope * d + slope * g2;
    }
  }

  lemma StraightSlopes(run: seq<UsageSample>, slope: real)
    requires |run| > 0 && Ascending(run) && Straight(run, slope)
    ensures Within(Slopes(run), slope, slope)
  {
    hide Slope, LineAt;
    forall i | 0 <= i < |run| - 1 ensures slope <= Slopes(run)[i] <= slope {
      assert run[(i + 1) - 1].at < run[i + 1].at;
      LineSlope(run[0], slope, run[i], run[i + 1]);
    }
  }

  /**
   A run on a straight line is projected along it: the rate is its slope, and the projection is where the line through
   the first sample is at the reset, or 100 if it is there or above by then.
   */
  lemma StraightRunProjects(samples: seq<UsageSample>, now: int, base: Base, slope: real)
    requires EvidenceOf(samples, now, base).Some? && EvidenceOf(samples, now, base).value.sampleCount >= 2
    requires |samples| > 0 && Straight(TrailingRun(samples), slope)
    ensures samples[|samples| - 1].resetAt.Some?
    ensures var e, run := EvidenceOf(samples, now, base).value, TrailingRun(samples);
            var there := LineAt(run[0], slope, samples[|samples| - 1].resetAt.value);
            e.rate == slope && e.projected == if there >= 100.0 then 100.0 else there
  {
    EvidenceSound(samples, now, base);
    EvidenceRun(samples, now, base);
    ProjectionOnLine(samples, now, base);
    var run := TrailingRun(samples);
    hide EvidenceOf, TrailingRun, Slopes, LineAt, Within, Project, Projectable, CrossesReset;
    StraightSlopes(run, slope);
    FirstBeforeLast(run);
    assert run[|run| - 1] == samples[|samples| - 1];
    LineSlope(run[0], slope, run[0], run[|run| - 1]);
  }

  lemma FirstBeforeLast(run: seq<UsageSample>)
    requires |run| >= 2 && Ascending(run)
    ensures run[0].at < run[|run| - 1].at
  {
    Ascends(run);
  }

  /** Position `i` carries on from the one before it: usage rose, within an hour. */
  predicate CarriesOn(samples: seq<UsageSample>, i: nat)
    requires 0 < i < |samples|
  {
    samples[i - 1].used < samples[i].used && samples[i].at - samples[i - 1].at <= 3_600_000_000
  }

  predicate SameLimit(x: Sample, y: Sample) {
    x.resetAt == y.resetAt && x.account == y.account && x.pool == y.pool && x.window == y.window
  }

  /** The samples from `start` on are of one limit and rise steadily towards a reset that is still ahead. */
  predicate Evident(samples: seq<UsageSample>, start: nat)
    requires start < |samples|
  {
    var last := samples[|samples| - 1];
    && last.resetAt.Some? && last.at < last.resetAt.value
    && last.pool in {"main", "gpt-5.3-codex-spark"} && last.window in {18_000, 604_800, 2_592_000}
    && (forall i :: start <= i < |samples| ==> SameLimit(samples[i], last))
    && (forall i: nat :: start < i < |samples| ==> CarriesOn(samples, i))
  }

  lemma ProjectableExactly(samples: seq<UsageSample>, start: nat)
    requires start < |samples| - 1
    ensures Projectable(samples[start..]) <==> Evident(samples, start)
  {
    var run := samples[start..];
    if Evident(samples, start) {
      forall i | 0 <= i < |run| ensures SameLimit(run[i], run[|run| - 1]) { assert run[i] == samples[start + i]; }
      forall i | 0 < i < |run| ensures run[i - 1].used < run[i].used &&
        run[i].at - run[i - 1].at <= TIME_CONSTANT_SECONDS * MICROS
      {
        assert CarriesOn(samples, start + i);
      }
      assert SameLimit(run[0], run[|run| - 1]);
    }
    if Projectable(run) {
      forall i | start <= i < |samples| ensures SameLimit(samples[i], samples[|samples| - 1]) {
        assert samples[i] == run[i - start] && samples[|samples| - 1] == run[|run| - 1];
      }
      forall i: nat | start < i < |samples| ensures CarriesOn(samples, i) {
        assert samples[i] == run[i - start] && samples[i - 1] == run[(i - start) - 1];
      }
    }
  }

  /**
   Evidence is given exactly if the samples are in time order and not from the future, the last one has a generation,
   and those since the last change of generation rise steadily in one known limit with a reset ahead. A single such
   sample is insufficient and projects its own usage; more are stale exactly after 900 seconds.
   */
  lemma EvidenceGivenExactly(samples: seq<UsageSample>, now: int, base: Base)
    requires |samples| > 0
    ensures var n := |TrailingRun(samples)|; var last, e := samples[|samples| - 1], EvidenceOf(samples, now, base);
            && (e.Some? <==>
                 && last.generation.Some? && Ascending(samples) && last.at <= now
                 && Evident(samples, |samples| - n))
            && (e.Some? ==>
                 && e.value.sampleCount == n && e.value.lastAt == last.at
                 && e.value.firstAt == samples[|samples| - n].at
                 && e.value.pool == last.pool && e.value.window == last.window
                 && Some(e.value.generation) == last.generation
                 && e.value.coverage == (if n == 1 then Insufficient
                                         else if now - last.at > 900_000_000 then Stale else Complete)
                 && (n == 1 ==> e.value.rate == 0.0 && e.value.projected == last.used))
  {
    hide EmaRate, RunStart, Ascending, Projectable, SingleUsable, Evident, TrailingRun, Projected;
    var run := TrailingRun(samples);
    if Ascending(samples) && samples[|samples| - 1].at <= now { AscendsTo(samples, now); }
    if |run| > 1 { ProjectableExactly(samples, |samples| - |run|); } else { SingleExactly(samples); }
  }

  lemma SingleExactly(samples: seq<UsageSample>)
    requires |samples| > 0
    ensures SingleUsable(samples[|samples| - 1]) <==> Evident(samples, |samples| - 1)
  {
    assert SameLimit(samples[|samples| - 1], samples[|samples| - 1]);
  }

  lemma AscendsTo(samples: seq<UsageSample>, now: int)
    requires |samples| > 0 && Ascending(samples) && samples[|samples| - 1].at <= now
    ensures forall i :: 0 <= i < |samples| ==> samples[i].at <= now
  {
    Ascends(samples);
  }

  /**
   Tracking more densely does not change the projection: a sample interpolated between two samples of the run leaves
   every field but the sample count as it was.
   */
  lemma EvidenceIgnoresSamplingRate(samples: seq<UsageSample>, i: nat, m: UsageSample, now: int, base: Base)
    requires EvidenceOf(samples, now, base).Some? && EvidenceOf(samples, now, base).value.sampleCount >= 2
    requires |samples| - EvidenceOf(samples, now, base).value.sampleCount <= i && i + 1 < |samples|
    requires Interpolates(samples[i], m, samples[i + 1]) && m.account == samples[i].account
    requires m.pool == samples[i].pool && m.window == samples[i].window
    ensures var e := EvidenceOf(samples, now, base).value;
            EvidenceOf(Inserted(samples, i, m), now, base) == Some(e.(sampleCount := e.sampleCount + 1))
  {
    hide Collinear, EmaRate, Project, CrossesReset, RunStart, Usable, Projectable, EvidenceOf, TrailingRun,
      Interpolates;
    EvidenceRun(samples, now, base);
    var run := TrailingRun(samples);
    assert !CrossesReset(run[(i - (|samples| - |run|) + 1) - 1], run[i - (|samples| - |run|) + 1]);
    DenserRunEvidence(samples, run, i, m, now, base);
  }

  lemma DenserRunEvidence(samples: seq<UsageSample>, run: seq<UsageSample>, i: nat, m: UsageSample, now: int,
      base: Base)
    requires Usable(samples, now) && run == TrailingRun(samples) && Projectable(run) && run[|run| - 1].generation.Some?
    requires |samples| - |run| <= i && i + 1 < |samples| && Interpolates(samples[i], m, samples[i + 1])
    requires m.account == samples[i].account && m.pool == samples[i].pool && m.window == samples[i].window
    requires !CrossesReset(samples[i], samples[i + 1])
    ensures EvidenceOf(Inserted(samples, i, m), now, base)
         == Some(Project(run, now, base).(sampleCount := Project(run, now, base).sampleCount + 1))
  {
    hide Collinear, EmaRate, Project, CrossesReset, RunStart, Usable, Projectable, EvidenceOf;
    var j := i - (|samples| - |run|);
    assert run[j] == samples[i] && run[j + 1] == samples[i + 1];
    DenserUsable(samples, i, m, now);
    DenserRun(samples, i, m);
    hide TrailingRun, Inserted;
    DenserProjectable(run, j, m);
    SameRate(run, j, m, base);
    DenserEvidence(Inserted(samples, i, m), run, j, m, now, base);
  }

  ghost predicate IsInserted(d: seq<UsageSample>, s: seq<UsageSample>, i: nat, m: UsageSample)
  {
    && i < |s| && |d| == |s| + 1
    && (forall k :: 0 <= k <= i ==> d[k] == s[k])
    && d[i + 1] == m
    && (forall k :: i + 2 <= k < |d| ==> d[k] == s[k - 1])
  }

  lemma SameRate(run: seq<UsageSample>, j: nat, m: UsageSample, base: Base)
    requires Projectable(run) && j + 1 < |run| && Interpolates(run[j], m, run[j + 1]) &&
      !CrossesReset(run[j], run[j + 1])
    ensures EmaRate(Inserted(run, j, m), base, TIME_CONSTANT_SECONDS) == EmaRate(run, base, TIME_CONSTANT_SECONDS)
  {
    assert run[j + 1].at - run[(j + 1) - 1].at <= TIME_CONSTANT_SECONDS * MICROS;
    InterpolationCrossesNoReset(run[j], m, run[j + 1]);
    EmaIgnoresSamplingRate(run, j, m, base, TIME_CONSTANT_SECONDS);
  }

  lemma DenserEvidence(samples: seq<UsageSample>, run: seq<UsageSample>, j: nat, m: UsageSample, now: int, base: Base)
    requires Projectable(run) && j + 1 < |run| && Projectable(Inserted(run, j, m)) && run[|run| - 1].generation.Some?
    requires EmaRate(Inserted(run, j, m), base, TIME_CONSTANT_SECONDS) == EmaRate(run, base, TIME_CONSTANT_SECONDS)
    requires Usable(samples, now) && TrailingRun(samples) == Inserted(run, j, m)
    ensures EvidenceOf(samples, now, base)
         == Some(Project(run, now, base).(sampleCount := Project(run, now, base).sampleCount + 1))
  {
    hide EmaRate, Projected, Projectable, Usable, TrailingRun;
    var dense := Inserted(run, j, m);
    assert dense[0] == run[0] && dense[|dense| - 1] == run[|run| - 1] && |dense| == |run| + 1;
  }

  lemma DenserUsable(samples: seq<UsageSample>, i: nat, m: UsageSample, now: int)
    requires Usable(samples, now) && i + 1 < |samples| && samples[i].at < m.at < samples[i + 1].at
    ensures Usable(Inserted(samples, i, m), now)
  {
    var d := Inserted(samples, i, m);
    assert IsInserted(d, samples, i, m);
    hide Inserted;
    assert d[|d| - 1] == samples[|samples| - 1];
    forall k | 0 < k < |d| ensures d[k - 1].at < d[k].at {
      if k > i + 2 { assert d[k] == samples[k - 1] && d[k - 1] == samples[(k - 1) - 1]; }
    }
    assert m.at <= samples[i + 1].at <= now;
  }

  ghost predicate OneGeneration(s: seq<UsageSample>, start: nat) {
    start < |s| && forall k :: start <= k < |s| ==> s[k].generation == s[|s| - 1].generation
  }

  lemma MaximalRunUnique(s: seq<UsageSample>, start: nat)
    requires OneGeneration(s, start) && start < |s|
    requires start > 0 ==> s[start - 1].generation != s[|s| - 1].generation
    ensures TrailingRun(s) == s[start..]
  {
    TrailingRunMaximal(s, |s| - 1);
    var found := RunStart(s, |s| - 1);
    hide RunStart;
    assert found == start;
  }

  /** Where the trailing run starts. */
  lemma RunPart(samples: seq<UsageSample>) returns (start: nat)
    requires |samples| > 0
    ensures start < |samples| && start == |samples| - |TrailingRun(samples)| && TrailingRun(samples) == samples[start..]
    ensures OneGeneration(samples, start)
    ensures start > 0 ==> samples[start - 1].generation != samples[|samples| - 1].generation
  {
    TrailingRunMaximal(samples, |samples| - 1);
    start := RunStart(samples, |samples| - 1);
  }

  lemma DenserGeneration(samples: seq<UsageSample>, i: nat, m: UsageSample, start: nat)
    requires OneGeneration(samples, start) && start <= i && i + 1 < |samples| && m.generation == samples[i].generation
    ensures OneGeneration(Inserted(samples, i, m), start)
    ensures Inserted(samples, i, m)[|samples|] == samples[|samples| - 1]
  {
    var d := Inserted(samples, i, m);
    InsertedAt(samples, i, m, |samples|);
    forall k | start <= k < |d| ensures d[k].generation == d[|d| - 1].generation { InsertedAt(samples, i, m, k); }
  }

  lemma DenserRun(samples: seq<UsageSample>, i: nat, m: UsageSample)
    requires |samples| > 0 && |samples| - |TrailingRun(samples)| <= i && i + 1 < |samples|
    requires m.generation == samples[i].generation
    ensures TrailingRun(Inserted(samples, i, m))
         == Inserted(TrailingRun(samples), i - (|samples| - |TrailingRun(samples)|), m)
  {
    hide Inserted, TrailingRun, RunStart, IsInserted, OneGeneration;
    var start := RunPart(samples);
    InsertedAt(samples, i, m, |samples|);
    if start > 0 { InsertedAt(samples, i, m, start - 1); }
    InsertedSuffix(samples, i, m, start);
    DenserGeneration(samples, i, m, start);
    MaximalRunUnique(Inserted(samples, i, m), start);
  }

  lemma InsertedSuffix(s: seq<UsageSample>, i: nat, m: UsageSample, start: nat)
    requires start <= i < |s|
    ensures IsInserted(Inserted(s, i, m), s, i, m)
    ensures Inserted(s, i, m)[start..] == Inserted(s[start..], i - start, m)
  {}

  lemma DenserProjectable(run: seq<UsageSample>, j: nat, m: UsageSample)
    requires Projectable(run) && j + 1 < |run| && OnLine(run[j], m, run[j + 1])
    requires m.resetAt == run[j].resetAt && m.account == run[j].account
    requires m.pool == run[j].pool && m.window == run[j].window
    ensures Projectable(Inserted(run, j, m))
  {
    var d := Inserted(run, j, m);
    assert IsInserted(d, run, j, m);
    assert run[(j + 1) - 1].used < run[j + 1].used;
    RisesInside(run[j], m, run[j + 1]);
    hide Collinear, Inserted;
    assert d[|d| - 1] == run[|run| - 1] && d[0] == run[0];
    DenserPairs(d, run, j, m);
    hide Rising, Dense;
    assert Uniform(d);
  }

  lemma DenserPairs(d: seq<UsageSample>, run: seq<UsageSample>, j: nat, m: UsageSample)
    requires Rising(run) && Dense(run) && j + 1 < |run| && IsInserted(d, run, j, m)
    requires run[j].used < m.used < run[j + 1].used && run[j].at < m.at < run[j + 1].at
    ensures Rising(d) && Dense(d)
  {
    assert run[j + 1].at - run[(j + 1) - 1].at <= TIME_CONSTANT_SECONDS * MICROS;
    forall k | 0 < k < |d|
      ensures d[k - 1].used < d[k].used && d[k].at - d[k - 1].at <= TIME_CONSTANT_SECONDS * MICROS
    {
      if k > j + 2 { assert d[k] == run[k - 1] && d[k - 1] == run[(k - 1) - 1]; }
    }
  }

  lemma RisesInside(p: UsageSample, m: UsageSample, c: UsageSample)
    requires OnLine(p, m, c) && p.used < c.used
    ensures p.used < m.used < c.used
  {
    OnLineSlopes(p, m, c);
    SlopePositive(p, c);
    DivisionSign(m.used - p.used, Seconds(m.at - p.at));
    DivisionSign(c.used - m.used, Seconds(c.at - m.at));
  }
}
