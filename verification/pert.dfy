/**
  The three-point (PERT) sampler of the simulator and the historical
  calibration of a sampled duration. The random variates are parameters: the
  Beta variate is a function of the shape parameters, the normal variate a
  function of its mean and standard deviation.
*/
module Pert {
  import opened Wrappers

  /** Shape parameters of the Beta distribution. */
  datatype Shape = Shape(alpha: real, beta: real)

  /** Smallest shape parameter the sampler lets through. */
  const MinShape: real := 0.1

  /** PERT expected value (O + 4M + P) / 6. */
  function Expected(o: real, m: real, p: real): real {
    (o + 4.0 * m + p) / 6.0
  }

  /**
    Shape parameters from the method-of-moments formulas
    6 (E - O) / (P - O) and 6 (P - E) / (P - O).
  */
  function RawShape(o: real, m: real, p: real): (s: Shape)
    requires p > o
    ensures s.alpha == 1.0 + 4.0 * (m - o) / (p - o)
    ensures s.beta == 1.0 + 4.0 * (p - m) / (p - o)
    ensures s.alpha + s.beta == 6.0
  {
    var range := p - o;
    assert 6.0 * (Expected(o, m, p) - o) == 4.0 * (m - o) + range;
    assert 6.0 * (p - Expected(o, m, p)) == 4.0 * (p - m) + range;
    DivShift(4.0 * (m - o), range);
    DivShift(4.0 * (p - m), range);
    Shape(6.0 * (Expected(o, m, p) - o) / range, 6.0 * (p - Expected(o, m, p)) / range)
  }

  lemma DivShift(a: real, r: real)
    requires r > 0.0
    ensures (a + r) / r == a / r + 1.0
  {
    calc {
      (a + r) / r;
      a / r + r / r;
      a / r + 1.0;
    }
  }

  /** For 0 <= a <= r, the quotient 4a / r lies in [0, 4]. */
  lemma QuarterBound(a: real, r: real)
    requires 0.0 <= a <= r && r > 0.0
    ensures 0.0 <= 4.0 * a / r <= 4.0
  {
    var q := 4.0 * a / r;
    assert q * r == 4.0 * a;
  }

  function Max(a: real, b: real): (r: real)
    ensures r >= a && r >= b && (r == a || r == b)
  {
    if a >= b then a else b
  }

  /** Raises each shape parameter to at least `MinShape`. */
  function Clamp(s: Shape): (r: Shape)
    ensures r.alpha >= MinShape && r.beta >= MinShape
    ensures s.alpha >= MinShape ==> r.alpha == s.alpha
    ensures s.beta >= MinShape ==> r.beta == s.beta
    ensures s.alpha < MinShape ==> r.alpha == MinShape
    ensures s.beta < MinShape ==> r.beta == MinShape
  {
    Shape(Max(s.alpha, MinShape), Max(s.beta, MinShape))
  }

  /** With the most likely value inside [O, P] both raw parameters lie in [1, 5], so clamping changes nothing. */
  lemma ClampIsIdentityWhenOrdered(o: real, m: real, p: real)
    requires o <= m <= p && o < p
    ensures 1.0 <= RawShape(o, m, p).alpha <= 5.0
    ensures 1.0 <= RawShape(o, m, p).beta <= 5.0
    ensures Clamp(RawShape(o, m, p)) == RawShape(o, m, p)
  {
    QuarterBound(m - o, p - o);
    QuarterBound(p - m, p - o);
  }

  /**
    One PERT sample. A degenerate estimate (P <= O) yields the most likely
    value; otherwise `betaDraw` supplies a Beta variate for the clamped shape
    and the result rescales it into [O, P].
  */
  function PertDistribution(o: real, m: real, p: real, betaDraw: Shape -> real): (r: real)
    ensures p <= o ==> r == m
    ensures p > o ==> (r - o) / (p - o) == betaDraw(Clamp(RawShape(o, m, p)))
    ensures p > o && 0.0 <= betaDraw(Clamp(RawShape(o, m, p))) <= 1.0 ==> o <= r <= p
  {
    if p <= o then m
    else
      var range := p - o;
      if range == 0.0 then m
      else
        var shape := Clamp(RawShape(o, m, p));
        o + betaDraw(shape) * range
  }

  /** The mean and spread of one category's historical variance multiplier. */
  datatype CategoryStats = CategoryStats(meanVariance: real, stdVariance: real)

  const ClipLow: real := 0.5
  const ClipHigh: real := 3.0

  /** `x` clipped into [lo, hi]: numpy's clip, the smaller of hi and the larger of x and lo. */
  function Clip(x: real, lo: real, hi: real): (r: real)
    requires lo <= hi
    ensures lo <= r <= hi
    ensures lo <= x <= hi ==> r == x
    ensures x < lo ==> r == lo
    ensures x > hi ==> r == hi
  {
    var raised := if x < lo then lo else x;
    if raised > hi then hi else raised
  }

  /** The normal sampler rejects a negative standard deviation (numpy's `ValueError`). */
  datatype CalibrationError = NegativeScale(category: string)

  /**
    Scales a duration by its category's variance multiplier, a normal variate
    from `normalDraw` clipped into [0.5, 3.0]. An unknown category leaves the
    duration as it is; a category whose spread is negative makes the normal
    sampler raise.
  */
  function ApplyHistoricalCalibration(d: real, category: string, stats: map<string, CategoryStats>,
                                      normalDraw: (real, real) -> real): (r: Result<real, CalibrationError>)
    ensures r.Failure? <==> category in stats && stats[category].stdVariance < 0.0
    ensures r.Failure? ==> r.error == NegativeScale(category)
    ensures category !in stats ==> r == Success(d)
    ensures r.Success? && category in stats && d >= 0.0 ==> ClipLow * d <= r.value <= ClipHigh * d
    ensures r.Success? && category in stats && d <= 0.0 ==> ClipHigh * d <= r.value <= ClipLow * d
    ensures r.Success? && category in stats &&
            ClipLow <= normalDraw(stats[category].meanVariance, stats[category].stdVariance) <= ClipHigh ==>
              r.value == d * normalDraw(stats[category].meanVariance, stats[category].stdVariance)
  {
    if category !in stats then Success(d)
    else
      var s := stats[category];
      if s.stdVariance < 0.0 then Failure(NegativeScale(category))
      else
        var multiplier := Clip(normalDraw(s.meanVariance, s.stdVariance), ClipLow, ClipHigh);
        Success(d * multiplier)
  }
}
