/** How much of a limit was used in a lookback window, how well that is known, and when it runs out. */
module Consumption {
  import opened Wrappers
  import opened Rates
  import Sorting

  const MAX_SAMPLES := 500_000
  const MAX_FORECAST_SECONDS := 31_536_000

  datatype Coverage = Insufficient | Stale | Partial | Complete

  datatype Window = Window(lookbackSeconds: int, pool: string, limitWindow: int, consumed: real, coverage: Coverage,
                           sampleCount: nat, secondsToExhaustion: Option<int>, baselineUsed: Option<real>)

  datatype Error = InvalidUnit | InvalidAmount | InvalidBaseline | InvalidStaleLimit | InvalidGapLimit
                 | TooManySamples | MixedAccounts | MixedLimits

  // ---------------------------------------------------------------- accumulator

  /** The accounting loop's variables: usage of the current cycle, where it began, and whether anything was missed. */
  datatype Tally = Tally(consumed: real, cycleStart: int, partial: bool)

  function TallyStep(t: Tally, previous: Sample, current: Sample, maxGap: int): Tally {
    var gap := current.at - previous.at;
    var late := t.partial || gap > maxGap * MICROS;
    match ResetBoundary(previous, current)
    case Some(boundary) => Tally(current.used, boundary, late || gap <= 0)
    case None =>
      if gap <= 0 then t.(partial := true)
      else if current.used >= previous.used then
        t.(consumed := t.consumed + (current.used - previous.used), partial := late)
      else t.(partial := true)
  }

  function TallyOf(s: seq<Sample>, partial: bool, maxGap: int): Tally
    requires |s| > 0
  {
    if |s| == 1 then Tally(0.0, s[0].at, partial)
    else TallyStep(TallyOf(s[..|s| - 1], partial, maxGap), s[|s| - 2], s[|s| - 1], maxGap)
  }

  method Accumulate(s: seq<UsageSample>, startsPartial: bool, maxGap: int)
    returns (consumed: real, cycleStart: int, partial: bool)
    requires |s| > 0
    ensures Tally(consumed, cycleStart, partial) == TallyOf(s, startsPartial, maxGap)
  {
    consumed, cycleStart, partial := 0.0, s[0].at, startsPartial;
    for i := 1 to |s|
      invariant Tally(consumed, cycleStart, partial) == TallyOf(s[..i], startsPartial, maxGap)
    {
      hide ResetBoundary;
      assert s[..i + 1][..i] == s[..i];
      var previous, current := s[i - 1], s[i];
      var gap := current.at - previous.at;
      if gap > maxGap * MICROS {
        partial := true;
      }
      var boundary := ResetBoundary(previous, current);
      if boundary.Some? {
        consumed, cycleStart := current.used, boundary.value;
        if gap <= 0 {
          partial := true;
        }
        continue;
      }
      if gap <= 0 {
        partial := true;
        continue;
      }
      var delta := current.used - previous.used;
      if delta >= 0.0 {
        consumed := consumed + delta;
        continue;
      }
      partial := true;
    }
    assert s[..|s|] == s;
  }

  /** Some consecutive pair of `s` crosses a reset. */
  ghost predicate AnyReset(s: seq<Sample>) {
    exists i :: 0 < i < |s| && CrossesReset(s[i - 1], s[i])
  }

  lemma AnyResetExtends(s: seq<Sample>)
    requires |s| > 1
    ensures AnyReset(s) <==> AnyReset(s[..|s| - 1]) || CrossesReset(s[|s| - 2], s[|s| - 1])
  {
    var init := s[..|s| - 1];
    if AnyReset(s) {
      var i :| 0 < i < |s| && CrossesReset(s[i - 1], s[i]);
      if i < |init| { assert CrossesReset(init[i - 1], init[i]); }
    }
    if AnyReset(init) {
      var i :| 0 < i < |init| && CrossesReset(init[i - 1], init[i]);
      assert CrossesReset(s[i - 1], s[i]);
    }
  }

  /**
   Without gaps the accumulator telescopes: the rise over the run, or all of the current cycle once a reset was crossed.
   */
  lemma {:induction false} TallyTelescopes(s: seq<UsageSample>, partial: bool, maxGap: int)
    requires |s| > 0 && !TallyOf(s, partial, maxGap).partial
    ensures TallyOf(s, partial, maxGap).consumed == s[|s| - 1].used - (if AnyReset(s) then 0.0 else s[0].used)
    ensures 0.0 <= TallyOf(s, partial, maxGap).consumed <= 100.0
  {
    if |s| > 1 {
      hide ResetBoundary;
      AnyResetExtends(s);
      TallyTelescopes(s[..|s| - 1], partial, maxGap);
    }
  }

  /** What is accumulated is never negative, so the final clamp at zero changes nothing. */
  lemma {:induction false} TallyNonNegative(s: seq<UsageSample>, partial: bool, maxGap: int)
    requires |s| > 0
    ensures TallyOf(s, partial, maxGap).consumed >= 0.0
  {
    if |s| > 1 {
      TallyNonNegative(s[..|s| - 1], partial, maxGap);
    }
  }

  /** Nothing before the last sample ahead of a reset can influence the usage or the start of the cycle. */
  lemma {:induction false} TallyForgetsOldCycles(s: seq<Sample>, i: nat, partial: bool, maxGap: int)
    requires i + 1 < |s| && CrossesReset(s[i], s[i + 1])
    ensures var whole, tail := TallyOf(s, partial, maxGap), TallyOf(s[i..], partial, maxGap);
            whole.consumed == tail.consumed && whole.cycleStart == tail.cycleStart
  {
    if |s| > i + 2 {
      hide ResetBoundary;
      var n := |s| - 1;
      TallyForgetsOldCycles(s[..n], i, partial, maxGap);
      assert s[i..][..n - i] == s[..n][i..];
    }
  }

  // ---------------------------------------------------------------- the window's samples

  predicate Earlier(x: Sample, y: Sample) { x.at <= y.at }

  /** The samples in time order. */
  function Ordered(samples: seq<UsageSample>): seq<UsageSample> {
    Sorting.StableSort(samples, (x: UsageSample, y: UsageSample) => Earlier(x, y))
  }

  ghost predicate TimeOrdered(s: seq<UsageSample>) {
    forall i, j :: 0 <= i < j < |s| ==> s[i].at <= s[j].at
  }

  lemma OrderedCorrect(samples: seq<UsageSample>)
    ensures TimeOrdered(Ordered(samples)) && multiset(Ordered(samples)) == multiset(samples)
    ensures |Ordered(samples)| == |samples|
    ensures TimeOrdered(samples) ==> Ordered(samples) == samples
  {
    var leq := (x: UsageSample, y: UsageSample) => Earlier(x, y);
    Sorting.StableSortCorrect(samples, leq);
    var r := Ordered(samples);
    forall i, j | 0 <= i < j < |r| ensures r[i].at <= r[j].at {
      assert leq(r[i], r[j]);
    }
    if TimeOrdered(samples) {
      Sorting.SortedIsFixed(samples, leq);
    }
  }

  /** How many leading samples of `s` lie at or before `t`; in a time-ordered list these are all of them. */
  function CountUpTo(s: seq<UsageSample>, t: int): (n: nat)
    ensures n <= |s| && (forall k :: 0 <= k < n ==> s[k].at <= t) && (n < |s| ==> s[n].at > t)
  {
    FirstAfter(s, t, 0)
  }

  function FirstAfter(s: seq<UsageSample>, t: int, i: nat): (n: nat)
    requires i <= |s|
    ensures i <= n <= |s| && (forall k :: i <= k < n ==> s[k].at <= t) && (n < |s| ==> s[n].at > t)
    decreases |s| - i
  {
    if i < |s| && s[i].at <= t then FirstAfter(s, t, i + 1) else i
  }

  function LastUpTo(s: seq<UsageSample>, t: int): Option<UsageSample> {
    var n := CountUpTo(s, t);
    if n == 0 then None else Some(s[n - 1])
  }

  function InRange(s: seq<UsageSample>, start: int, now: int): seq<UsageSample> {
    if |s| == 0 then []
    else InRange(s[..|s| - 1], start, now) + (if start <= s[|s| - 1].at <= now then [s[|s| - 1]] else [])
  }

  /** The samples of the window, with the last sample at or before its start in front unless it already is. */
  function Observations(s: seq<UsageSample>, start: int, now: int): seq<UsageSample> {
    var baseline, inside := LastUpTo(s, start), InRange(s, start, now);
    if baseline.Some? && (|inside| == 0 || inside[0] != baseline.value) then [baseline.value] + inside else inside
  }

  method SelectObservations(s: seq<UsageSample>, start: int, valueStart: Option<int>, now: int)
    returns (baseline: Option<UsageSample>, baselineValue: Option<UsageSample>, observations: seq<UsageSample>)
    requires TimeOrdered(s) && start <= now && (valueStart.Some? ==> valueStart.value <= now)
    ensures baseline == LastUpTo(s, start)
    ensures baselineValue == if valueStart.None? then None else LastUpTo(s, valueStart.value)
    ensures observations == Observations(s, start, now)
  {
    baseline, baselineValue := None, None;
    for i := 0 to |s|
      invariant baseline == if Seen(s, start, i) == 0 then None else Some(s[Seen(s, start, i) - 1])
      invariant valueStart.None? ==> baselineValue.None?
      invariant valueStart.Some? ==>
        baselineValue == if Seen(s, valueStart.value, i) == 0 then None else Some(s[Seen(s, valueStart.value, i) - 1])
    {
      var sample := s[i];
      if sample.at <= start {
        baseline := Some(sample);
      }
      if valueStart.Some? && sample.at <= valueStart.value {
        baselineValue := Some(sample);
      }
      if sample.at > now {
        break;
      }
    }
    observations := InRange(s, start, now);
    if baseline.Some? && (|observations| == 0 || observations[0] != baseline.value) {
      observations := [baseline.value] + observations;
    }
  }

  /** How many of the first `i` samples lie at or before `t`, in a time-ordered list. */
  function Seen(s: seq<UsageSample>, t: int, i: nat): (n: nat)
    requires i <= |s|
    ensures n <= i && n <= CountUpTo(s, t)
  {
    var n := CountUpTo(s, t);
    if n < i then n else i
  }

  /** Positions [from, to) of a time-ordered list hold exactly the samples of the time range. */
  lemma {:induction false} InRangeIsSlice(s: seq<UsageSample>, start: int, now: int, from: nat, to: nat)
    requires from <= to <= |s|
    requires forall k :: 0 <= k < |s| ==> (start <= s[k].at <= now <==> from <= k < to)
    ensures InRange(s, start, now) == s[from..to]
  {
    if |s| > 0 {
      var n := |s| - 1;
      var init := s[..n];
      assert forall k :: 0 <= k < n ==> init[k] == s[k];
      if to == |s| && from < to {
        InRangeIsSlice(init, start, now, from, n);
        assert s[from..to] == init[from..n] + [s[n]];
      } else {
        InRangeIsSlice(init, start, now, if from == |s| then n else from, if to == |s| then n else to);
      }
    }
  }

  /** The window is one contiguous run: from the last sample at or before its start up to the last one by `now`. */
  ghost predicate ContiguousWindow(s: seq<UsageSample>, start: int, now: int) {
    var first, end := CountUpTo(s, start), CountUpTo(s, now);
    0 < first <= end && Observations(s, start, now) == s[first - 1..end]
  }

  /** How many samples of a time-ordered list lie strictly before `t`. */
  ghost function CountBelow(s: seq<UsageSample>, t: int): (n: nat)
    requires TimeOrdered(s)
    ensures n <= CountUpTo(s, t)
    ensures forall k :: 0 <= k < |s| ==> (s[k].at < t <==> k < n)
  {
    var n, m := CountUpTo(s, t - 1), CountUpTo(s, t);
    assert n <= m;
    n
  }

  lemma WindowParts(s: seq<UsageSample>, start: int, now: int)
    requires TimeOrdered(s) && start <= now && LastUpTo(s, start).Some?
    ensures var low, first, end := CountBelow(s, start), CountUpTo(s, start), CountUpTo(s, now);
            && low <= first <= end && 0 < first && InRange(s, start, now) == s[low..end]
            && LastUpTo(s, start) == Some(s[first - 1])
            && (forall k :: 0 <= k < first ==> (s[k].at == start <==> low <= k))
            && (low == first && low < |s| ==> s[low].at > start)
  {
    var low, first, end := CountBelow(s, start), CountUpTo(s, start), CountUpTo(s, now);
    assert first <= end;
    forall k | 0 <= k < |s| ensures start <= s[k].at <= now <==> low <= k < end {
      assert k >= end ==> s[end].at <= s[k].at;
    }
    InRangeIsSlice(s, start, now, low, end);
  }

  /**
   With a sample at or before the start, the window is contiguous exactly when no second sample was taken at the very
   start: two of them make the last one appear twice, or the earlier ones appear as well.
   */
  lemma WindowContiguous(s: seq<UsageSample>, start: int, now: int)
    requires TimeOrdered(s) && start <= now && LastUpTo(s, start).Some?
    ensures CountUpTo(s, start) > 0
    ensures var first := CountUpTo(s, start);
            ContiguousWindow(s, start, now) <==> (first >= 2 ==> s[first - 2].at != start)
    ensures !ContiguousWindow(s, start, now) ==>
      var o := Observations(s, start, now); |o| >= 2 && o[0].at == o[1].at
  {
    WindowParts(s, start, now);
    var low, first, end := CountBelow(s, start), CountUpTo(s, start), CountUpTo(s, now);
    if low + 1 < first {
      DuplicatedStart(s, start, now, low, first, end);
    } else {
      SingleStart(s, start, now, low, first, end);
    }
  }

  lemma SingleStart(s: seq<UsageSample>, start: int, now: int, low: nat, first: nat, end: nat)
    requires low <= first <= end <= |s| && 0 < first <= low + 1
    requires InRange(s, start, now) == s[low..end] && LastUpTo(s, start) == Some(s[first - 1])
    requires low < first || (low < |s| ==> s[low].at != s[first - 1].at)
    ensures Observations(s, start, now) == s[first - 1..end]
  {
    hide CountUpTo, InRange, LastUpTo;
    if low < first {
      assert low < end ==> s[low..end][0] == s[low];
    } else {
      assert low < end ==> s[low..end][0] == s[low];
      assert [s[first - 1]] + s[low..end] == s[first - 1..end];
    }
  }

  lemma DuplicatedStart(s: seq<UsageSample>, start: int, now: int, low: nat, first: nat, end: nat)
    requires low + 1 < first <= end <= |s|
    requires InRange(s, start, now) == s[low..end] && LastUpTo(s, start) == Some(s[first - 1])
    requires s[low].at == s[low + 1].at == s[first - 1].at
    ensures var o := Observations(s, start, now);
            |o| > |s[first - 1..end]| && |o| >= 2 && o[0].at == o[1].at
  {
    hide CountUpTo, InRange, LastUpTo;
    var inside := s[low..end];
    assert inside[0] == s[low] && inside[1] == s[low + 1];
  }

  // ---------------------------------------------------------------- forecast

  function Ceil(x: real): int { -((-x).Floor) }

  function Forecast(used: real, rate: real): Option<int> {
    var remaining := Max(0.0, 100.0 - used);
    if remaining == 0.0 then Some(0)
    else if rate > 0.0 && Ceil(remaining / rate) <= MAX_FORECAST_SECONDS then Some(Ceil(remaining / rate))
    else None
  }

  /** Usage a whole number of seconds ahead, at a constant rate. */
  function UsedAfter(used: real, rate: real, seconds: int): real { used + rate * seconds as real }

  /**
   The forecast is the first whole second at which a constant rate exhausts the limit; absent means not within a year.
   */
  lemma ForecastIsFirstExhaustion(used: real, rate: real)
    requires 0.0 <= used <= 100.0 && rate >= 0.0
    ensures Forecast(used, rate).Some? ==>
      var e := Forecast(used, rate).value;
      && 0 <= e <= MAX_FORECAST_SECONDS && UsedAfter(used, rate, e) >= 100.0
      && (e > 0 ==> UsedAfter(used, rate, e - 1) < 100.0)
    ensures Forecast(used, rate).None? <==> UsedAfter(used, rate, MAX_FORECAST_SECONDS) < 100.0
  {
    var remaining := 100.0 - used;
    if remaining > 0.0 && rate > 0.0 {
      var q := remaining / rate;
      var c := Ceil(q);
      DivisionSign(remaining, rate);
      Exhausts(used, rate, q, c);
      Exhausts(used, rate, q, c - 1);
      Exhausts(used, rate, q, MAX_FORECAST_SECONDS);
    }
  }

  lemma Exhausts(used: real, rate: real, q: real, seconds: int)
    requires rate > 0.0 && q * rate == 100.0 - used
    ensures UsedAfter(used, rate, seconds) >= 100.0 <==> seconds as real >= q
  {
    var t := seconds as real;
    ScaleOrder(rate, q, t);
    ScaleOrder(rate, t, q);
    assert rate * q == 100.0 - used;
  }

  lemma ScaleOrder(rate: real, x: real, y: real)
    requires rate > 0.0
    ensures x <= y ==> rate * x <= rate * y
    ensures x < y ==> rate * x < rate * y
  {
    if x < y { assert rate * (y - x) > 0.0; }
  }

  // ---------------------------------------------------------------- the whole calculation

  function UnitSeconds(unit: string): Option<(int, int)> {
    if unit == "minutes" then Some((60, 1_440))
    else if unit == "hours" then Some((3_600, 720))
    else if unit == "days" then Some((86_400, 365))
    else if unit == "weeks" then Some((604_800, 365))
    else None
  }

  function LookbackSeconds(amount: int, unit: string): Result<int, Error> {
    match UnitSeconds(unit)
    case None => Err(InvalidUnit)
    case Some(u) => if 0 < amount <= u.1 then Ok(amount * u.0) else Err(InvalidAmount)
  }

  predicate BaselineValid(minutes: Option<int>) { minutes.None? || 0 <= minutes.value <= 9_999 }

  datatype Request = Request(lookback: int, start: int, valueStart: Option<int>, now: int,
                             staleAfter: int, maxGap: int, smoothing: Option<Base>)

  function BaselineUsed(s: seq<UsageSample>, q: Request): Option<real> {
    var value := if q.valueStart.None? then None else LastUpTo(s, q.valueStart.value);
    if value.Some? then Some(value.value.used)
    else match LastUpTo(s, q.start) case None => None case Some(b) => Some(b.used)
  }

  function StartsPartial(s: seq<UsageSample>, q: Request): bool {
    LastUpTo(s, q.start).None? || Observations(s, q.start, q.now)[0].at > q.start
  }

  function CoverageOf(last: Sample, partial: bool, q: Request): Coverage {
    if q.now - last.at > q.staleAfter * MICROS then Stale else if partial then Partial else Complete
  }

  function RateOf(o: seq<UsageSample>, t: Tally, q: Request): real
    requires |o| > 0
  {
    var elapsed := o[|o| - 1].at - t.cycleStart;
    if q.smoothing.Some? then EmaRate(o, q.smoothing.value, q.maxGap)
    else if elapsed > 0 then t.consumed / Seconds(elapsed) else 0.0
  }

  /** The report on a time-ordered, non-empty list of samples of one account and one limit. */
  function Report(s: seq<UsageSample>, q: Request): Window
    requires |s| > 0
  {
    var o := Observations(s, q.start, q.now);
    if |o| < 2 then
      Window(q.lookback, s[0].pool, s[0].window, 0.0, Insufficient, |o|, None, BaselineUsed(s, q))
    else
      var t := TallyOf(o, StartsPartial(s, q), q.maxGap);
      var last := o[|o| - 1];
      var coverage := CoverageOf(last, t.partial, q);
      Window(q.lookback, s[0].pool, s[0].window, Max(0.0, t.consumed), coverage, |o|,
             if coverage == Stale then None else Forecast(last.used, RateOf(o, t, q)), BaselineUsed(s, q))
  }

  predicate OneAccount(s: seq<UsageSample>) { forall i :: 0 <= i < |s| ==> s[i].account == s[0].account }

  predicate OneLimit(s: seq<UsageSample>) {
    forall i :: 0 <= i < |s| ==> s[i].pool == s[0].pool && s[i].window == s[0].window
  }

  /** Whether the samples are of one account and limit does not depend on their order. */
  lemma OrderIrrelevant(s: seq<UsageSample>, t: seq<UsageSample>)
    requires multiset(s) == multiset(t)
    ensures OneAccount(s) && OneLimit(s) <==> OneAccount(t) && OneLimit(t)
  {
    if OneAccount(s) && OneLimit(s) { OneAfterReordering(s, t); }
    if OneAccount(t) && OneLimit(t) { OneAfterReordering(t, s); }
  }

  lemma OneAfterReordering(s: seq<UsageSample>, t: seq<UsageSample>)
    requires multiset(s) == multiset(t) && OneAccount(s) && OneLimit(s)
    ensures OneAccount(t) && OneLimit(t)
  {
    forall i | 0 <= i < |t|
      ensures t[i].account == t[0].account && t[i].pool == t[0].pool && t[i].window == t[0].window
    {
      assert t[i] in multiset(t) && t[0] in multiset(t);
      assert t[i] in s && t[0] in s;
    }
  }

  /** The lengths of a lookback: whole units within the bounds of each. */
  lemma LookbackExactly(amount: int, unit: string, seconds: int)
    ensures LookbackSeconds(amount, unit) == Ok(seconds) <==>
      || (unit == "minutes" && 0 < amount <= 1_440 && seconds == amount * 60)
      || (unit == "hours" && 0 < amount <= 720 && seconds == amount * 3_600)
      || (unit == "days" && 0 < amount <= 365 && seconds == amount * 86_400)
      || (unit == "weeks" && 0 < amount <= 365 && seconds == amount * 604_800)
  {}

  predicate BaselineAllowed(minutes: Option<int>) { minutes.None? || 0 <= minutes.value < 10_000 }

  method CalculateConsumption(samples: seq<UsageSample>, amount: int, unit: string, now: int,
                              baselineMinutes: Option<int>, baselineValueMinutes: Option<int>,
                              staleAfterSeconds: int, maxGapSeconds: Option<int>, smoothing: Option<Base>)
    returns (r: Result<Window, Error>)
    ensures r.Ok? <==>
      && LookbackSeconds(amount, unit).Ok?
      && BaselineAllowed(baselineMinutes) && BaselineAllowed(baselineValueMinutes)
      && staleAfterSeconds > 0 && (maxGapSeconds.Some? ==> maxGapSeconds.value > 0)
      && |samples| <= 500_000
      && forall i :: 0 <= i < |samples| ==>
           var x, y := samples[i], samples[0]; x.account == y.account && x.pool == y.pool && x.window == y.window
    ensures r.Ok? && samples == [] ==>
      r.value == Window(LookbackSeconds(amount, unit).value, "main", 0, 0.0, Insufficient, 0, None, None)
    ensures r.Ok? && samples != [] ==>
      |Ordered(samples)| > 0 &&
      var lookback := LookbackSeconds(amount, unit).value;
      var back := if baselineMinutes.None? then lookback else baselineMinutes.value * 60;
      var asked := if baselineValueMinutes.None? then None else Some(now - baselineValueMinutes.value * 60_000_000);
      r.value == Report(Ordered(samples),
                        Request(lookback, now - back * 1_000_000, asked, now, staleAfterSeconds,
                                if maxGapSeconds.None? then 3_600 else maxGapSeconds.value, smoothing))
  {
    hide Report, Ordered;
    OrderedCorrect(samples);
    var lookback := LookbackSeconds(amount, unit);
    if lookback.Err? { return Err(lookback.error); }
    if !BaselineValid(baselineMinutes) || !BaselineValid(baselineValueMinutes) { return Err(InvalidBaseline); }
    if staleAfterSeconds <= 0 { return Err(InvalidStaleLimit); }
    var maxGap := if maxGapSeconds.None? then 3_600 else maxGapSeconds.value;
    if maxGap <= 0 { return Err(InvalidGapLimit); }
    if |samples| > MAX_SAMPLES { return Err(TooManySamples); }
    if |samples| == 0 {
      assert Ordered(samples) == [];
      return Ok(Window(lookback.value, "main", 0, 0.0, Insufficient, 0, None, None));
    }
    var ordered := samples;
    var alreadyOrdered := IsOrdered(samples);
    if !alreadyOrdered {
      ordered := Ordered(samples);
    }
    OrderIrrelevant(samples, ordered);
    if !OneAccount(ordered) { return Err(MixedAccounts); }
    if !OneLimit(ordered) { return Err(MixedLimits); }
    var start := now - (if baselineMinutes.None? then lookback.value else baselineMinutes.value * 60) * MICROS;
    var valueStart := if baselineValueMinutes.None? then None else Some(now - baselineValueMinutes.value * 60 * MICROS);
    var window := ReportOn(ordered, lookback.value, start, valueStart, now, staleAfterSeconds, maxGap, smoothing);
    return Ok(window);
  }

  method IsOrdered(samples: seq<UsageSample>) returns (ordered: bool)
    ensures ordered <==> TimeOrdered(samples)
  {
    var previous: Option<int> := None;
    ordered := true;
    for i := 0 to |samples|
      invariant previous == if i == 0 then None else Some(samples[i - 1].at)
      invariant ordered <==> TimeOrdered(samples[..i])
    {
      if previous.Some? && samples[i].at < previous.value {
        ordered := false;
        assert samples[..i + 1][i - 1].at > samples[..i + 1][i].at;
      }
      assert forall j :: 0 <= j < i ==> samples[..i + 1][j] == samples[..i][j];
      previous := Some(samples[i].at);
    }
    assert samples[..|samples|] == samples;
  }

  method ReportOn(ordered: seq<UsageSample>, lookback: int, start: int, valueStart: Option<int>, now: int,
                  staleAfter: int, maxGap: int, smoothing: Option<Base>) returns (r: Window)
    requires |ordered| > 0 && TimeOrdered(ordered) && start <= now && (valueStart.Some? ==> valueStart.value <= now)
    ensures r == Report(ordered, Request(lookback, start, valueStart, now, staleAfter, maxGap, smoothing))
  {
    hide CountUpTo, InRange, TallyOf, EmaRate, Forecast;
    var baseline, baselineValue, observations := SelectObservations(ordered, start, valueStart, now);
    var baselineUsed := if baselineValue.Some? then Some(baselineValue.value.used)
                        else if baseline.Some? then Some(baseline.value.used) else None;
    if |observations| < 2 {
      return Window(lookback, ordered[0].pool, ordered[0].window, 0.0, Insufficient, |observations|, None,
        baselineUsed);
    }
    var last := observations[|observations| - 1];
    var startsPartial := baseline.None? || observations[0].at > start;
    var stale := now - last.at > staleAfter * MICROS;
    var consumed, cycleStart, partial := Accumulate(observations, startsPartial, maxGap);
    var coverage := if stale then Stale else if partial then Partial else Complete;
    var estimate: Option<int> := None;
    if coverage == Complete || coverage == Partial {
      var elapsed := last.at - cycleStart;
      var rate := if elapsed > 0 then consumed / Seconds(elapsed) else 0.0;
      if smoothing.Some? {
        rate := ComputeEmaRate(observations, smoothing.value, maxGap);
      }
      estimate := Forecast(last.used, rate);
    }
    return Window(lookback, ordered[0].pool, ordered[0].window, Max(0.0, consumed), coverage, |observations|, estimate,
                  baselineUsed);
  }

  // ---------------------------------------------------------------- main results

  /**
   Complete coverage means the number is exact: the window is a contiguous run of the samples from a baseline at or
   before the start, and what is reported is the last reading less the baseline's, or the whole last reading when the
   run crossed a reset.
   */
  lemma CompleteCoverageIsExact(s: seq<UsageSample>, q: Request)
    requires |s| > 0 && TimeOrdered(s) && q.start <= q.now
    requires Report(s, q).coverage == Complete
    ensures ContiguousWindow(s, q.start, q.now)
    ensures var first, end := CountUpTo(s, q.start), CountUpTo(s, q.now);
            && first < end
            && var run := s[first - 1..end];
               Report(s, q).consumed == s[end - 1].used - (if AnyReset(run) then 0.0 else s[first - 1].used)
    ensures 0.0 <= Report(s, q).consumed <= 100.0
  {
    CompleteFacts(s, q);
    CompleteIsContiguous(s, q);
    hide CountUpTo, InRange, TallyOf, Report, AnyReset, StartsPartial, Observations;
    TallyTelescopes(Observations(s, q.start, q.now), StartsPartial(s, q), q.maxGap);
  }

  lemma CompleteFacts(s: seq<UsageSample>, q: Request)
    requires |s| > 0 && Report(s, q).coverage == Complete
    ensures LastUpTo(s, q.start).Some? && |Observations(s, q.start, q.now)| >= 2
    ensures var t := TallyOf(Observations(s, q.start, q.now), StartsPartial(s, q), q.maxGap);
            !t.partial && Report(s, q).consumed == Max(0.0, t.consumed)
  {
    hide CountUpTo, InRange, TallyOf, Forecast, RateOf;
    var o := Observations(s, q.start, q.now);
    assert |o| >= 2;
    if StartsPartial(s, q) {
      PartialStays(o, q.maxGap);
    }
  }

  lemma {:induction false} PartialStays(o: seq<UsageSample>, maxGap: int)
    requires |o| > 0
    ensures TallyOf(o, true, maxGap).partial
  {
    if |o| > 1 {
      PartialStays(o[..|o| - 1], maxGap);
    }
  }

  lemma CompleteIsContiguous(s: seq<UsageSample>, q: Request)
    requires |s| > 0 && TimeOrdered(s) && q.start <= q.now && LastUpTo(s, q.start).Some?
    requires var o := Observations(s, q.start, q.now);
             |o| >= 2 && !TallyOf(o, StartsPartial(s, q), q.maxGap).partial
    ensures ContiguousWindow(s, q.start, q.now)
  {
    WindowContiguous(s, q.start, q.now);
    hide CountUpTo, InRange, TallyOf, TimeOrdered, ContiguousWindow;
    var o := Observations(s, q.start, q.now);
    if o[0].at == o[1].at {
      EarlyPartial(o, StartsPartial(s, q), q.maxGap);
    }
  }

  /** Two samples at one instant at the head of a run make it partial for good. */
  lemma {:induction false} EarlyPartial(o: seq<UsageSample>, partial: bool, maxGap: int)
    requires |o| >= 2 && o[0].at == o[1].at
    ensures TallyOf(o, partial, maxGap).partial
  {
    if |o| > 2 {
      EarlyPartial(o[..|o| - 1], partial, maxGap);
    }
  }

  /** A window starts partial exactly if no sample lies at or before its start. */
  lemma StartsPartialExactly(s: seq<UsageSample>, q: Request)
    requires TimeOrdered(s) && |Observations(s, q.start, q.now)| > 0
    ensures StartsPartial(s, q) <==> forall k :: 0 <= k < |s| ==> s[k].at > q.start
  {
    hide InRange;
    var n := CountUpTo(s, q.start);
    assert n > 0 ==> s[n - 1].at <= q.start;
    assert n == 0 && |s| > 0 ==> s[0].at > q.start;
  }

  /** The value reported for the baseline is that of the last sample at or before the instant asked for. */
  lemma BaselineExactly(s: seq<UsageSample>, q: Request, k: nat)
    requires |s| > 0 && TimeOrdered(s) && k < |s| && q.valueStart.Some?
    requires s[k].at <= q.valueStart.value && (k + 1 < |s| ==> s[k + 1].at > q.valueStart.value)
    ensures Report(s, q).baselineUsed == Some(s[k].used)
  {
    hide Observations, TallyOf, Forecast, RateOf, CoverageOf, StartsPartial;
    LastIsFound(s, q.valueStart.value, k);
  }

  /**
   Without an instant of its own, or without a sample by then, it is that of the last sample by the window's start.
   */
  lemma BaselineAtStart(s: seq<UsageSample>, q: Request, k: nat)
    requires |s| > 0 && TimeOrdered(s) && k < |s|
    requires q.valueStart.None? || s[0].at > q.valueStart.value
    requires s[k].at <= q.start && (k + 1 < |s| ==> s[k + 1].at > q.start)
    ensures Report(s, q).baselineUsed == Some(s[k].used)
  {
    hide Observations, TallyOf, Forecast, RateOf, CoverageOf, StartsPartial;
    LastIsFound(s, q.start, k);
  }

  lemma LastIsFound(s: seq<UsageSample>, t: int, k: nat)
    requires TimeOrdered(s) && k < |s| && s[k].at <= t && (k + 1 < |s| ==> s[k + 1].at > t)
    ensures LastUpTo(s, t) == Some(s[k])
  {
    var n := CountUpTo(s, t);
    assert forall i :: 0 <= i <= k ==> s[i].at <= t;
  }

  /** Every report's number is non-negative, and its rate too, so its forecast is the first exhaustion at that rate. */
  lemma ReportForecast(s: seq<UsageSample>, q: Request)
    requires |s| > 0 && Report(s, q).coverage in {Partial, Complete}
    ensures var o := Observations(s, q.start, q.now);
            && |o| >= 2
            && var used, t := o[|o| - 1].used, TallyOf(o, StartsPartial(s, q), q.maxGap);
               var rate, e := RateOf(o, t, q), Report(s, q).secondsToExhaustion;
               && rate >= 0.0 && Report(s, q).consumed == t.consumed >= 0.0
               && (e.None? <==> UsedAfter(used, rate, MAX_FORECAST_SECONDS) < 100.0)
               && (e.Some? ==> UsedAfter(used, rate, e.value) >= 100.0
                               && (e.value > 0 ==> UsedAfter(used, rate, e.value - 1) < 100.0))
  {
    hide CountUpTo, InRange, TallyStep, Forecast, UsedAfter;
    var o := Observations(s, q.start, q.now);
    var t := TallyOf(o, StartsPartial(s, q), q.maxGap);
    TallyNonNegative(o, StartsPartial(s, q), q.maxGap);
    var elapsed := o[|o| - 1].at - t.cycleStart;
    if elapsed > 0 { DivisionSign(t.consumed, Seconds(elapsed)); }
    ForecastIsFirstExhaustion(o[|o| - 1].used, RateOf(o, t, q));
  }

  // ---------------------------------------------------------------- independence of the sampling rate

  /** One accounting step across a gap equals two steps through a sample on the line inside it. */
  lemma TallyStepSplits(t: Tally, p: Sample, m: Sample, c: Sample, maxGap: int)
    requires OnLine(p, m, c) && c.at - p.at <= maxGap * MICROS
    requires !CrossesReset(p, c) && !CrossesReset(p, m) && !CrossesReset(m, c)
    ensures TallyStep(TallyStep(t, p, m, maxGap), m, c, maxGap) == TallyStep(t, p, c, maxGap)
  {
    hide ResetBoundary, Collinear;
    OnLineSlopes(p, m, c);
    DivisionSign(c.used - p.used, Seconds(c.at - p.at));
    DivisionSign(m.used - p.used, Seconds(m.at - p.at));
    DivisionSign(c.used - m.used, Seconds(c.at - m.at));
  }

  lemma TallyExtends(s: seq<Sample>, n: nat, partial: bool, maxGap: int)
    requires 0 < n < |s|
    ensures TallyOf(s[..n + 1], partial, maxGap) == TallyStep(TallyOf(s[..n], partial, maxGap), s[n - 1], s[n], maxGap)
  {
    assert s[..n + 1][..n] == s[..n];
  }

  /** A sample on the line between two consecutive samples changes neither the usage nor the partial flag. */
  lemma {:induction false} TallyIgnoresSamplingRate(s: seq<Sample>, i: nat, m: Sample, partial: bool, maxGap: int)
    requires i + 1 < |s|
    requires OnLine(s[i], m, s[i + 1]) && s[i + 1].at - s[i].at <= maxGap * MICROS
    requires !CrossesReset(s[i], s[i + 1]) && !CrossesReset(s[i], m) && !CrossesReset(m, s[i + 1])
    ensures |Inserted(s, i, m)| == |s| + 1
    ensures TallyOf(Inserted(s, i, m), partial, maxGap) == TallyOf(s, partial, maxGap)
  {
    hide TallyStep, TallyOf, ResetBoundary, CrossesReset, Collinear, Inserted;
    var t, n := Inserted(s, i, m), |s|;
    InsertedDropLast(s, i, m);
    TallyExtends(t, n, partial, maxGap);
    TallyExtends(s, n - 1, partial, maxGap);
    assert s[..n] == s;
    if i + 2 == n {
      TallyExtends(t, n - 1, partial, maxGap);
      TallyStepSplits(TallyOf(s[..n - 1], partial, maxGap), s[i], m, s[i + 1], maxGap);
    } else {
      TallyIgnoresSamplingRate(s[..n - 1], i, m, partial, maxGap);
    }
  }

  lemma {:induction false} InRangeAdds(a: seq<UsageSample>, b: seq<UsageSample>, start: int, now: int)
    ensures InRange(a + b, start, now) == InRange(a, start, now) + InRange(b, start, now)
  {
    if |b| == 0 {
      assert a + b == a;
    } else {
      InRangeAdds(a, b[..|b| - 1], start, now);
      assert (a + b)[..|a + b| - 1] == a + b[..|b| - 1];
    }
  }

  lemma InRangeOne(m: UsageSample, start: int, now: int)
    ensures InRange([m], start, now) == if start <= m.at <= now then [m] else []
  {
    assert [m][..0] == [];
  }

  /** Nothing before the start counts, and a sample inside the range at either end of the list counts at that end. */
  lemma {:induction false} InRangeEnds(s: seq<UsageSample>, start: int, now: int)
    requires |s| > 0
    ensures (forall k :: 0 <= k < |s| ==> s[k].at < start) ==> InRange(s, start, now) == []
    ensures start <= s[|s| - 1].at <= now ==>
      |InRange(s, start, now)| > 0 && InRange(s, start, now)[|InRange(s, start, now)| - 1] == s[|s| - 1]
    ensures start <= s[0].at <= now ==> |InRange(s, start, now)| > 0 && InRange(s, start, now)[0] == s[0]
  {
    if |s| > 1 { InRangeEnds(s[..|s| - 1], start, now); }
  }

  lemma PolledOrdered(s: seq<UsageSample>, i: nat, m: UsageSample)
    requires TimeOrdered(s) && i + 1 < |s| && s[i].at < m.at < s[i + 1].at
    ensures TimeOrdered(Inserted(s, i, m))
  {}

  lemma PolledLastUpTo(s: seq<UsageSample>, i: nat, m: UsageSample, t: int)
    requires TimeOrdered(s) && i + 1 < |s| && s[i].at < m.at < s[i + 1].at && t < m.at
    ensures LastUpTo(Inserted(s, i, m), t) == LastUpTo(s, t)
    ensures s[i].at <= t ==> LastUpTo(s, t) == Some(s[i])
  {
    PolledOrdered(s, i, m);
    var d, n, n' := Inserted(s, i, m), CountUpTo(s, t), CountUpTo(Inserted(s, i, m), t);
    assert d[i + 1] == m && forall k :: 0 <= k <= i ==> d[k] == s[k];
    assert n <= i + 1 && n' <= i + 1;
  }

  lemma PolledLastLater(s: seq<UsageSample>, i: nat, m: UsageSample, t: int)
    requires TimeOrdered(s) && i + 1 < |s| && s[i].at < m.at < s[i + 1].at <= t
    ensures LastUpTo(Inserted(s, i, m), t) == LastUpTo(s, t)
  {
    hide CountUpTo, Inserted;
    var d, n, n' := Inserted(s, i, m), CountUpTo(s, t), CountUpTo(Inserted(s, i, m), t);
    assert n >= i + 2;
    InsertedAt(s, i, m, n);
    if n < |s| { InsertedAt(s, i, m, n + 1); }
    assert forall k :: 0 <= k <= i ==> s[k].at <= t;
    if n' <= n { InsertedAt(s, i, m, n'); }
  }

  /** The samples of the time range before and after the place of one more poll. */
  lemma WindowPieces(s: seq<UsageSample>, i: nat, m: UsageSample, start: int, now: int)
    returns (a: seq<UsageSample>, b: seq<UsageSample>)
    requires TimeOrdered(s) && i + 1 < |s| && s[i].at < m.at < s[i + 1].at && start < m.at && s[i + 1].at <= now
    ensures InRange(s, start, now) == a + b && InRange(Inserted(s, i, m), start, now) == a + [m] + b
    ensures |b| > 0 && b[0] == s[i + 1]
    ensures s[i].at < start ==> a == []
    ensures s[i].at >= start ==> |a| > 0 && a[|a| - 1] == s[i]
  {
    hide InRange, TimeOrdered, Inserted;
    var left, right := s[..i + 1], s[i + 1..];
    PolledParts(s, i, m);
    InRangeAdds(left, right, start, now);
    InRangeAdds(left + [m], right, start, now);
    InRangeAdds(left, [m], start, now);
    InRangeOne(m, start, now);
    LeftEnd(s, i, start, now);
    InRangeEnds(right, start, now);
    a, b := InRange(left, start, now), InRange(right, start, now);
  }

  lemma PolledParts(s: seq<UsageSample>, i: nat, m: UsageSample)
    requires i < |s|
    ensures s == s[..i + 1] + s[i + 1..] && Inserted(s, i, m) == s[..i + 1] + [m] + s[i + 1..]
  {}

  lemma LeftEnd(s: seq<UsageSample>, i: nat, start: int, now: int)
    requires TimeOrdered(s) && i < |s| && s[i].at <= now
    ensures var a := InRange(s[..i + 1], start, now);
      if s[i].at < start then a == [] else |a| > 0 && a[|a| - 1] == s[i]
  {
    InRangeEnds(s[..i + 1], start, now);
    hide InRange;
    assert forall k :: 0 <= k <= i ==> s[k].at <= s[i].at;
  }

  lemma InsertedAfter(pre: seq<UsageSample>, a: seq<UsageSample>, b: seq<UsageSample>, m: UsageSample) returns (j: nat)
    requires |pre + a| > 0 && |b| > 0
    ensures j + 1 < |pre + (a + b)| && (pre + (a + b))[j] == (pre + a)[|pre + a| - 1] && (pre + (a + b))[j + 1] == b[0]
    ensures Inserted(pre + (a + b), j, m) == pre + (a + [m] + b)
  {
    j := |pre + a| - 1;
    var o := pre + (a + b);
    assert o[..j + 1] == pre + a && o[j + 1..] == b;
  }

  /** The window with one more poll after its start has exactly that poll more. */
  lemma PolledWindow(s: seq<UsageSample>, i: nat, m: UsageSample, start: int, now: int) returns (j: nat)
    requires TimeOrdered(s) && i + 1 < |s| && s[i].at < m.at < s[i + 1].at && start < m.at && s[i + 1].at <= now
    ensures var o := Observations(s, start, now);
      j + 1 < |o| && o[j] == s[i] && o[j + 1] == s[i + 1] &&
        Observations(Inserted(s, i, m), start, now) == Inserted(o, j, m)
  {
    var a, b := WindowPieces(s, i, m, start, now);
    PolledLastUpTo(s, i, m, start);
    InFront(s, start, now);
    InFront(Inserted(s, i, m), start, now);
    hide InRange, LastUpTo, CountUpTo, TimeOrdered, Observations, Inserted, Front;
    var baseline := LastUpTo(s, start);
    WindowSplits(baseline, a, b, m);
    j := InsertedAfter(Front(baseline, a + b), a, b, m);
  }

  lemma InFront(s: seq<UsageSample>, start: int, now: int)
    ensures Observations(s, start, now) == Front(LastUpTo(s, start), InRange(s, start, now)) + InRange(s, start, now)
  {
    hide InRange, LastUpTo;
  }

  /** What a window puts in front of the samples of its time range. */
  function Front(baseline: Option<UsageSample>, inside: seq<UsageSample>): seq<UsageSample> {
    if baseline.Some? && (|inside| == 0 || inside[0] != baseline.value) then [baseline.value] else []
  }

  lemma WindowSplits(baseline: Option<UsageSample>, a: seq<UsageSample>, b: seq<UsageSample>, m: UsageSample)
    requires |b| > 0 && (a == [] ==> baseline.Some? && baseline.value.at < m.at < b[0].at)
    ensures Front(baseline, a + [m] + b) == Front(baseline, a + b)
    ensures a == [] ==> Front(baseline, a + b) == [baseline.value]
  {
    if a != [] {
      assert (a + [m] + b)[0] == a[0] == (a + b)[0];
    } else {
      assert (a + [m] + b)[0] == m && (a + b)[0] == b[0];
    }
  }

  lemma SameFigures(o: seq<UsageSample>, j: nat, m: UsageSample, partial: bool, q: Request)
    requires j + 1 < |o| && Interpolates(o[j], m, o[j + 1]) && !CrossesReset(o[j], o[j + 1])
    requires o[j + 1].at - o[j].at <= q.maxGap * MICROS
    ensures TallyOf(Inserted(o, j, m), partial, q.maxGap) == TallyOf(o, partial, q.maxGap)
    ensures forall t :: RateOf(Inserted(o, j, m), t, q) == RateOf(o, t, q)
  {
    hide TallyOf, Ema, CrossesReset, ResetBoundary, Collinear;
    InterpolationCrossesNoReset(o[j], m, o[j + 1]);
    TallyIgnoresSamplingRate(o, j, m, partial, q.maxGap);
    if q.smoothing.Some? { EmaIgnoresSamplingRate(o, j, m, q.smoothing.value, q.maxGap); }
  }

  /** The poll changes neither where the window starts nor, for an earlier instant, the value asked for. */
  lemma SameStart(s: seq<UsageSample>, i: nat, m: UsageSample, j: nat, q: Request)
    requires TimeOrdered(s) && i + 1 < |s| && s[i].at < m.at < s[i + 1].at && q.start < m.at
    requires var o := Observations(s, q.start, q.now);
             j + 1 < |o| && Observations(Inserted(s, i, m), q.start, q.now) == Inserted(o, j, m)
    ensures StartsPartial(Inserted(s, i, m), q) == StartsPartial(s, q)
    ensures q.valueStart.None? || !(m.at <= q.valueStart.value < s[i + 1].at) ==>
      BaselineUsed(Inserted(s, i, m), q) == BaselineUsed(s, q)
  {
    hide Observations, LastUpTo, Inserted, TimeOrdered;
    PolledLastUpTo(s, i, m, q.start);
    if q.valueStart.Some? && q.valueStart.value < m.at { PolledLastUpTo(s, i, m, q.valueStart.value); }
    if q.valueStart.Some? && q.valueStart.value >= s[i + 1].at { PolledLastLater(s, i, m, q.valueStart.value); }
    InsertedAt(Observations(s, q.start, q.now), j, m, 0);
  }

  /**
   Polling once more along the line, inside one cycle and the gap limit and after the start of the window, changes the
   number of samples of a report and nothing else: usage, coverage and forecast do not depend on the sampling rate. Only
   a value asked for at an instant between the new poll and the next sample can be the new one.
   */
  lemma ReportIgnoresSamplingRate(s: seq<UsageSample>, i: nat, m: UsageSample, q: Request)
    requires TimeOrdered(s) && i + 1 < |s| && Interpolates(s[i], m, s[i + 1]) && !CrossesReset(s[i], s[i + 1])
    requires s[i + 1].at - s[i].at <= q.maxGap * MICROS && q.start < m.at && s[i + 1].at <= q.now
    ensures var before, after := Report(s, q), Report(Inserted(s, i, m), q);
      && after == before.(sampleCount := before.sampleCount + 1, baselineUsed := after.baselineUsed)
      && (q.valueStart.None? || !(m.at <= q.valueStart.value < s[i + 1].at) ==>
        after.baselineUsed == before.baselineUsed)
  {
    hide TallyOf, CrossesReset, Observations, CoverageOf, Forecast, Inserted, RateOf, StartsPartial, BaselineUsed,
      TimeOrdered, Collinear;
    var j := PolledWindow(s, i, m, q.start, q.now);
    var o := Observations(s, q.start, q.now);
    SameStart(s, i, m, j, q);
    SameFigures(o, j, m, StartsPartial(s, q), q);
    InsertedAt(s, i, m, 0);
    InsertedAt(o, j, m, |o|);
  }
}
