/**
 Usage samples, the reset detector and the time-aware average of the usage rate.

 Instants are whole microseconds, the resolution of the datetimes they stand for, so the
 exponential decay over a gap is a power: `base` is the decay over one microsecond, for a time
 constant of T seconds the number exp(-1e-6 / T).
 */
module Rates {
  import opened Wrappers

  const MICROS := 1_000_000

  datatype Sample = Sample(account: string, pool: string, window: int, at: int, used: real,
                           resetAt: Option<int>, generation: Option<string>)

  /** A sample that passed construction: the counter is a percentage. */
  type UsageSample = s: Sample | 0.0 <= s.used <= 100.0
    witness Sample("", "", 0, 0, 0.0, None, None)

  type Base = b: real | 0.0 < b < 1.0 witness 0.5

  function Seconds(micros: int): real { micros as real / 1000000.0 }

  function Max(x: real, y: real): real { if x >= y then x else y }

  function Min(x: real, y: real): real { if x <= y then x else y }

  // ---------------------------------------------------------------- decay

  function Decay(base: Base, ticks: nat): real {
    if ticks == 0 then 1.0 else base * Decay(base, ticks - 1)
  }

  lemma {:induction false} DecayBetween(base: Base, ticks: nat)
    requires ticks > 0
    ensures 0.0 < Decay(base, ticks) < 1.0
  {
    if ticks > 1 {
      DecayBetween(base, ticks - 1);
      var rest := Decay(base, ticks - 1);
      assert 0.0 < base * rest < base;
    }
  }

  lemma {:induction false} DecayAdds(base: Base, m: nat, n: nat)
    ensures Decay(base, m + n) == Decay(base, m) * Decay(base, n)
  {
    if m > 0 {
      DecayAdds(base, m - 1, n);
      Associate(base, Decay(base, m - 1), Decay(base, n));
    }
  }

  lemma Associate(x: real, y: real, z: real)
    ensures x * (y * z) == (x * y) * z
  {}

  // ---------------------------------------------------------------- reset detector

  /** When a new limit cycle began between two samples, if one did. */
  function ResetBoundary(previous: Sample, current: Sample): Option<int> {
    if previous.used > 0.0 && current.used == 0.0 then
      Some(current.at)
    else if current.resetAt.None? then
      if previous.generation.Some? && current.generation.Some? && previous.generation != current.generation
      then Some(current.at) else None
    else if previous.resetAt.Some? && previous.at <= previous.resetAt.value <= current.at then
      previous.resetAt
    else if previous.at < current.resetAt.value <= current.at && current.resetAt != previous.resetAt then
      current.resetAt
    else
      None
  }

  predicate CrossesReset(previous: Sample, current: Sample) {
    ResetBoundary(previous, current).Some?
  }

  // ---------------------------------------------------------------- moving average

  /** Usage per second from one sample to a later one; negative when the counter fell. */
  function Slope(previous: Sample, current: Sample): real
    requires previous.at < current.at
  {
    (current.used - previous.used) / Seconds(current.at - previous.at)
  }

  /** Whether a pair that crosses no reset is close enough together to be averaged in. */
  predicate Averaged(previous: Sample, current: Sample, maxGap: int) {
    0 < current.at - previous.at <= maxGap * MICROS
  }

  function Blend(ema: Option<real>, rate: real, weight: real): real {
    if ema.None? then rate else ema.value + weight * (rate - ema.value)
  }

  function EmaStep(ema: Option<real>, previous: Sample, current: Sample, base: Base, maxGap: int): Option<real> {
    match ResetBoundary(previous, current)
    case Some(boundary) =>
      if current.at <= boundary then None else Some(current.used / Seconds(current.at - boundary))
    case None =>
      if Averaged(previous, current, maxGap) then
        Some(Blend(ema, Max(0.0, Slope(previous, current)), 1.0 - Decay(base, current.at - previous.at)))
      else ema
  }

  /** The average after every sample of `s`; None while no rate has been seen in the current cycle. */
  function Ema(s: seq<Sample>, base: Base, maxGap: int): Option<real> {
    if |s| < 2 then None
    else EmaStep(Ema(s[..|s| - 1], base, maxGap), s[|s| - 2], s[|s| - 1], base, maxGap)
  }

  function EmaRate(s: seq<Sample>, base: Base, maxGap: int): real {
    match Ema(s, base, maxGap)
    case None => 0.0
    case Some(rate) => Max(0.0, rate)
  }

  lemma EmaExtends(s: seq<Sample>, n: nat, base: Base, maxGap: int)
    requires 1 <= n < |s|
    ensures Ema(s[..n + 1], base, maxGap) == EmaStep(Ema(s[..n], base, maxGap), s[n - 1], s[n], base, maxGap)
  {
    assert s[..n + 1][..n] == s[..n];
  }

  lemma ClampedSlope(previous: Sample, current: Sample)
    requires previous.at < current.at
    ensures Max(0.0, Slope(previous, current))
         == Max(0.0, current.used - previous.used) / Seconds(current.at - previous.at)
  {
    DivisionSign(current.used - previous.used, Seconds(current.at - previous.at));
  }

  /** The body of the averaging loop for one pair of samples. */
  method AdvanceEma(before: Option<real>, previous: UsageSample, current: UsageSample, base: Base, maxGap: int)
    returns (ema: Option<real>)
    ensures ema == EmaStep(before, previous, current, base, maxGap)
  {
    hide Blend, Decay, ResetBoundary, Slope;
    var gap := current.at - previous.at;
    var boundary := ResetBoundary(previous, current);
    if boundary.Some? {
      if current.at <= boundary.value {
        return None;
      }
      var resetGap := Seconds(current.at - boundary.value);
      return Some(current.used / resetGap);
    }
    if gap <= 0 || gap > maxGap * MICROS {
      return before;
    }
    var delta := current.used - previous.used;
    if delta < 0.0 {
      delta := 0.0;
    }
    ClampedSlope(previous, current);
    var instantaneous := delta / Seconds(gap);
    var alpha := 1.0 - Decay(base, gap);
    return Some(Blend(before, instantaneous, alpha));
  }

  method ComputeEmaRate(observations: seq<UsageSample>, base: Base, maxGap: int) returns (rate: real)
    ensures rate == EmaRate(observations, base, maxGap)
  {
    var ema: Option<real> := None;
    var previous: Option<UsageSample> := None;
    for i := 0 to |observations|
      invariant ema == Ema(observations[..i], base, maxGap)
      invariant previous == if i == 0 then None else Some(observations[i - 1])
    {
      var current := observations[i];
      if previous.Some? {
        EmaExtends(observations, i, base, maxGap);
        ema := AdvanceEma(ema, previous.value, current, base, maxGap);
      }
      previous := Some(current);
    }
    assert observations[..|observations|] == observations;
    rate := if ema.None? then 0.0 else Max(0.0, ema.value);
  }

  lemma DivisionSign(x: real, y: real)
    requires y > 0.0
    ensures x >= 0.0 <==> x / y >= 0.0
    ensures x > 0.0 <==> x / y > 0.0
  {
    var q := x / y;
    assert q * y == x;
  }

  // ---------------------------------------------------------------- independence of the sampling rate

  /** `m` lies strictly inside the straight line from `p` to `c`. */
  predicate OnLine(p: Sample, m: Sample, c: Sample) {
    p.at < m.at < c.at && Collinear(p, m, c)
  }

  predicate Collinear(p: Sample, m: Sample, c: Sample) {
    (m.used - p.used) * Seconds(c.at - p.at) == (c.used - p.used) * Seconds(m.at - p.at)
  }

  /** `s` with `m` put between positions `i` and `i + 1`. */
  function Inserted<T>(s: seq<T>, i: nat, m: T): (d: seq<T>)
    requires i < |s|
    ensures |d| == |s| + 1
  {
    s[..i + 1] + [m] + s[i + 1..]
  }

  /** What stands at position `k` of the longer list. */
  lemma InsertedAt<T>(s: seq<T>, i: nat, m: T, k: nat)
    requires i < |s| && k <= |s|
    ensures Inserted(s, i, m)[k] == if k <= i then s[k] else if k == i + 1 then m else s[k - 1]
  {}

  lemma OnLineSlopes(p: Sample, m: Sample, c: Sample)
    requires OnLine(p, m, c)
    ensures Slope(p, m) == Slope(p, c) == Slope(m, c)
  {
    var g, g1, g2 := Seconds(c.at - p.at), Seconds(m.at - p.at), Seconds(c.at - m.at);
    assert g == g1 + g2;
    var r := (c.used - p.used) / g;
    assert r * g == c.used - p.used;
    Associate(r, g1, g);
    Associate(r, g, g1);
    assert (m.used - p.used) * g == (r * g1) * g;
    Cancel(m.used - p.used, r * g1, g);
    Quotient(m.used - p.used, r, g1);
    assert r * g2 == r * g - r * g1;
    Quotient(c.used - m.used, r, g2);
  }

  lemma Cancel(x: real, y: real, z: real)
    requires z > 0.0 && x * z == y * z
    ensures x == y
  {
    assert (x - y) * z == 0.0;
  }

  lemma Quotient(x: real, r: real, y: real)
    requires y > 0.0 && x == r * y
    ensures x / y == r
  {
    Cancel(x / y, r, y);
  }

  /** Two blends towards the same rate are one blend whose decay is the product. */
  lemma BlendTwice(ema: Option<real>, rate: real, d1: real, d2: real)
    ensures Blend(Some(Blend(ema, rate, 1.0 - d1)), rate, 1.0 - d2) == Blend(ema, rate, 1.0 - d1 * d2)
  {
    if ema.Some? {
      var e := ema.value;
      BlendDecay(e, rate, d1);
      var e1 := rate + d1 * (e - rate);
      BlendDecay(e1, rate, d2);
      BlendDecay(e, rate, d1 * d2);
      Associate(d2, d1, e - rate);
      assert d2 * d1 == d1 * d2;
    }
  }

  lemma BlendDecay(e: real, rate: real, d: real)
    ensures Blend(Some(e), rate, 1.0 - d) == rate + d * (e - rate)
  {}

  /** One step across a gap equals two steps through a sample on the line. */
  lemma EmaStepSplits(ema: Option<real>, p: Sample, m: Sample, c: Sample, base: Base, maxGap: int)
    requires OnLine(p, m, c) && c.at - p.at <= maxGap * MICROS
    requires !CrossesReset(p, c) && !CrossesReset(p, m) && !CrossesReset(m, c)
    ensures EmaStep(EmaStep(ema, p, m, base, maxGap), m, c, base, maxGap) == EmaStep(ema, p, c, base, maxGap)
  {
    hide Blend, Decay, Slope;
    OnLineSlopes(p, m, c);
    var rate := Max(0.0, Slope(p, c));
    var d1, d2 := Decay(base, m.at - p.at), Decay(base, c.at - m.at);
    DecayAdds(base, m.at - p.at, c.at - m.at);
    BlendTwice(ema, rate, d1, d2);
    var once := Blend(ema, rate, 1.0 - d1);
    assert EmaStep(ema, p, m, base, maxGap) == Some(once);
    assert EmaStep(Some(once), m, c, base, maxGap) == Some(Blend(Some(once), rate, 1.0 - d2));
    assert Decay(base, c.at - p.at) == d1 * d2;
    assert EmaStep(ema, p, c, base, maxGap) == Some(Blend(ema, rate, 1.0 - Decay(base, c.at - p.at)));
  }

  lemma InsertedDropLast(s: seq<Sample>, i: nat, m: Sample)
    requires i + 1 < |s|
    ensures var t, n := Inserted(s, i, m), |s|;
            && |t| == n + 1 && t[..n + 1] == t && t[n] == s[n - 1] && t[n - 1] == (if i + 2 == n then m else s[n - 2])
            && (if i + 2 == n then t[..n - 1] == s[..n - 1] && t[..n] == s[..n - 1] + [m]
                else t[..n] == Inserted(s[..n - 1], i, m))
  {
    var t, n := Inserted(s, i, m), |s|;
    if i + 2 < n {
      assert s[i + 1..][..n - 2 - i] == s[..n - 1][i + 1..];
      assert t == (s[..i + 1] + [m]) + s[i + 1..];
      assert t[..n] == (s[..i + 1] + [m]) + s[i + 1..][..n - 2 - i];
    }
  }

  /** A sample on the line between two consecutive samples never changes the average. */
  lemma {:induction false} EmaIgnoresSamplingRate(s: seq<Sample>, i: nat, m: Sample, base: Base, maxGap: int)
    requires i + 1 < |s|
    requires OnLine(s[i], m, s[i + 1]) && s[i + 1].at - s[i].at <= maxGap * MICROS
    requires !CrossesReset(s[i], s[i + 1]) && !CrossesReset(s[i], m) && !CrossesReset(m, s[i + 1])
    ensures Ema(Inserted(s, i, m), base, maxGap) == Ema(s, base, maxGap)
  {
    hide EmaStep, ResetBoundary, CrossesReset, Collinear, Inserted;
    var t, n := Inserted(s, i, m), |s|;
    InsertedDropLast(s, i, m);
    EmaExtends(t, n, base, maxGap);
    EmaExtends(s, n - 1, base, maxGap);
    assert s[..n] == s;
    if i + 2 == n {
      EmaExtends(t, n - 1, base, maxGap);
      EmaStepSplits(Ema(s[..n - 1], base, maxGap), s[i], m, s[i + 1], base, maxGap);
    } else {
      EmaIgnoresSamplingRate(s[..n - 1], i, m, base, maxGap);
    }
  }

  /** A sample on the line that carries the reset metadata of both its neighbours. */
  predicate Interpolates(p: Sample, m: Sample, c: Sample) {
    && OnLine(p, m, c)
    && p.resetAt == m.resetAt == c.resetAt
    && p.generation == m.generation == c.generation
  }

  /** Within one cycle, interpolated samples cannot look like a reset. */
  lemma InterpolationCrossesNoReset(p: UsageSample, m: Sample, c: UsageSample)
    requires Interpolates(p, m, c) && !CrossesReset(p, c)
    ensures !CrossesReset(p, m) && !CrossesReset(m, c)
    ensures 0.0 <= m.used <= 100.0
  {
    var g, g1, g2 := Seconds(c.at - p.at), Seconds(m.at - p.at), Seconds(c.at - m.at);
    assert g == g1 + g2 && g1 > 0.0 && g2 > 0.0;
    assert m.used * g == p.used * g2 + c.used * g1 by {
      assert (m.used - p.used) * g == m.used * g - p.used * g;
      assert p.used * g == p.used * g1 + p.used * g2;
      assert (c.used - p.used) * g1 == c.used * g1 - p.used * g1;
    }
    WeightedBetween(m.used, p.used, c.used, g1, g2);
    if p.used > 0.0 {
      assert p.used * g2 > 0.0 && c.used * g1 >= 0.0;
      assert m.used != 0.0;
    } else if c.used == 0.0 {
      Cancel(m.used, 0.0, g);
    }
  }

  lemma WeightedBetween(x: real, y: real, z: real, v: real, w: real)
    requires v > 0.0 && w > 0.0 && x * (v + w) == y * w + z * v
    requires 0.0 <= y <= 100.0 && 0.0 <= z <= 100.0
    ensures 0.0 <= x <= 100.0
  {
    Product(y, w);
    Product(z, v);
    Product(100.0 - y, w);
    Product(100.0 - z, v);
    assert (100.0 - x) * (v + w) == (100.0 - y) * w + (100.0 - z) * v;
    NonNegativeFactor(x, v + w);
    NonNegativeFactor(100.0 - x, v + w);
  }

  lemma Product(x: real, y: real)
    requires x >= 0.0 && y >= 0.0
    ensures x * y >= 0.0
  {}

  lemma NonNegativeFactor(x: real, y: real)
    requires y > 0.0 && x * y >= 0.0
    ensures x >= 0.0
  {}

  datatype Insertion = Insertion(index: nat, sample: UsageSample)

  function Densify(s: seq<UsageSample>, inserted: seq<Insertion>): seq<UsageSample> {
    if |inserted| == 0 then s
    else
      var rest := Densify(s, inserted[..|inserted| - 1]);
      var last := inserted[|inserted| - 1];
      if last.index < |rest| then Inserted(rest, last.index, last.sample) else rest
  }

  /**
   Each insertion interpolates two neighbours of the list built so far that lie in one cycle and within the gap limit.
   */
  ghost predicate Interpolated(s: seq<UsageSample>, inserted: seq<Insertion>, maxGap: int) {
    |inserted| > 0 ==>
      var init := inserted[..|inserted| - 1];
      var rest, last := Densify(s, init), inserted[|inserted| - 1];
      && Interpolated(s, init, maxGap)
      && last.index + 1 < |rest|
      && Interpolates(rest[last.index], last.sample, rest[last.index + 1])
      && !CrossesReset(rest[last.index], rest[last.index + 1])
      && rest[last.index + 1].at - rest[last.index].at <= maxGap * MICROS
  }

  /** Polling more often along the same line, any number of times and anywhere, leaves the rate exactly unchanged. */
  lemma {:induction false} RateIgnoresDensity(s: seq<UsageSample>, inserted: seq<Insertion>, base: Base, maxGap: int)
    requires Interpolated(s, inserted, maxGap)
    ensures |Densify(s, inserted)| == |s| + |inserted|
    ensures EmaRate(Densify(s, inserted), base, maxGap) == EmaRate(s, base, maxGap)
    ensures Ema(Densify(s, inserted), base, maxGap) == Ema(s, base, maxGap)
  {
    hide EmaStep, CrossesReset, Collinear;
    if |inserted| > 0 {
      var init := inserted[..|inserted| - 1];
      var rest, last := Densify(s, init), inserted[|inserted| - 1];
      RateIgnoresDensity(s, init, base, maxGap);
      InterpolationCrossesNoReset(rest[last.index], last.sample, rest[last.index + 1]);
      EmaIgnoresSamplingRate(rest, last.index, last.sample, base, maxGap);
    }
  }

  // ---------------------------------------------------------------- convex hull and locality

  /** The clamped rates that took part since the last reset, oldest first. */
  function CycleRates(s: seq<Sample>, maxGap: int): seq<real> {
    if |s| < 2 then []
    else
      var p, c := s[|s| - 2], s[|s| - 1];
      match ResetBoundary(p, c)
      case Some(boundary) => if c.at <= boundary then [] else [c.used / Seconds(c.at - boundary)]
      case None =>
        CycleRates(s[..|s| - 1], maxGap) +
        if Averaged(p, c, maxGap) then [Max(0.0, Slope(p, c))] else []
  }

  ghost predicate Within(rates: seq<real>, lo: real, hi: real) {
    forall i :: 0 <= i < |rates| ==> lo <= rates[i] <= hi
  }

  lemma StepInHull(ema: Option<real>, p: Sample, c: Sample, base: Base, maxGap: int, lo: real, hi: real)
    requires !CrossesReset(p, c) && Averaged(p, c, maxGap)
    requires lo <= Max(0.0, Slope(p, c)) <= hi && (ema.Some? ==> lo <= ema.value <= hi)
    ensures EmaStep(ema, p, c, base, maxGap).Some? && lo <= EmaStep(ema, p, c, base, maxGap).value <= hi
  {
    hide Blend, ResetBoundary, Slope, Decay, Seconds;
    var r, d := Max(0.0, Slope(p, c)), Decay(base, c.at - p.at);
    DecayBetween(base, c.at - p.at);
    if ema.Some? { BlendBetween(ema.value, r, d, lo, hi); } else { FirstBlend(r, 1.0 - d); }
  }

  /** The average is absent without rates, and otherwise lies between any bounds of the rates of this cycle. */
  lemma {:induction false} EmaInHull(s: seq<UsageSample>, base: Base, maxGap: int, lo: real, hi: real)
    requires Within(CycleRates(s, maxGap), lo, hi)
    ensures Ema(s, base, maxGap).None? <==> CycleRates(s, maxGap) == []
    ensures Ema(s, base, maxGap).Some? ==> lo <= Ema(s, base, maxGap).value <= hi
  {
    if |s| >= 2 {
      var p, c, init := s[|s| - 2], s[|s| - 1], s[..|s| - 1];
      var rates, earlier := CycleRates(s, maxGap), CycleRates(init, maxGap);
      if CrossesReset(p, c) {
        hide Slope, Decay, Seconds;
        assert rates != [] ==> lo <= rates[0] <= hi;
      } else {
        hide Slope, Decay, Seconds, Blend;
        assert Averaged(p, c, maxGap) ==> rates == earlier + [Max(0.0, Slope(p, c))] && lo <= rates[|earlier|] <= hi;
        assert !Averaged(p, c, maxGap) ==> rates == earlier;
        assert forall i :: 0 <= i < |earlier| ==> earlier[i] == rates[i];
        EmaInHull(init, base, maxGap, lo, hi);
        if Averaged(p, c, maxGap) {
          StepInHull(Ema(init, base, maxGap), p, c, base, maxGap, lo, hi);
        }
      }
    }
  }

  lemma FirstBlend(rate: real, weight: real)
    ensures Blend(None, rate, weight) == rate
  {}

  lemma BlendBetween(e: real, r: real, d: real, lo: real, hi: real)
    requires lo <= e <= hi && lo <= r <= hi && 0.0 < d < 1.0
    ensures lo <= Blend(Some(e), r, 1.0 - d) <= hi
  {
    hide Blend;
    BlendDecay(e, r, d);
    if e >= r { Shrinks(d, e, r); } else { Shrinks(d, r, e); }
  }

  lemma Shrinks(d: real, x: real, y: real)
    requires 0.0 < d < 1.0 && x >= y
    ensures 0.0 <= d * (x - y) <= x - y
    ensures y - x <= d * (y - x) <= 0.0
  {
    Product(d, x - y);
    Product(1.0 - d, x - y);
    assert (1.0 - d) * (x - y) == (x - y) - d * (x - y);
  }

  /** Rates are never negative, so the final clamp at zero changes nothing. */
  lemma {:induction false} CycleRatesNonNegative(s: seq<UsageSample>, maxGap: int)
    ensures forall i :: 0 <= i < |CycleRates(s, maxGap)| ==> CycleRates(s, maxGap)[i] >= 0.0
  {
    if |s| >= 2 {
      CycleRatesNonNegative(s[..|s| - 1], maxGap);
      var p, c := s[|s| - 2], s[|s| - 1];
      var boundary := ResetBoundary(p, c);
      if boundary.Some? && c.at > boundary.value {
        DivisionSign(c.used, Seconds(c.at - boundary.value));
      }
    }
  }

  /** The reported rate is zero without rates and otherwise stays between the least and the greatest of them. */
  lemma RateInHull(s: seq<UsageSample>, base: Base, maxGap: int, lo: real, hi: real)
    requires Within(CycleRates(s, maxGap), lo, hi)
    ensures CycleRates(s, maxGap) == [] ==> EmaRate(s, base, maxGap) == 0.0
    ensures CycleRates(s, maxGap) != [] ==> lo <= EmaRate(s, base, maxGap) <= hi
  {
    EmaInHull(s, base, maxGap, lo, hi);
    CycleRatesNonNegative(s, maxGap);
    var rates := CycleRates(s, maxGap);
    if rates != [] {
      EmaInHull(s, base, maxGap, Max(0.0, lo), hi);
      assert lo <= rates[0] <= hi;
    }
  }

  /** Nothing before the last sample ahead of a reset can influence the average. */
  lemma {:induction false} EmaForgetsOldCycles(s: seq<Sample>, i: nat, base: Base, maxGap: int)
    requires i + 1 < |s| && CrossesReset(s[i], s[i + 1])
    ensures Ema(s, base, maxGap) == Ema(s[i..], base, maxGap)
  {
    if |s| > i + 2 {
      hide EmaStep;
      var n := |s| - 1;
      EmaForgetsOldCycles(s[..n], i, base, maxGap);
      assert s[i..][..n - i] == s[..n][i..];
    }
  }
}
