/**
  Order statistics over a sample of real project durations: sum and mean,
  minimum and maximum, an insertion sort, numpy's default (linear
  interpolation) percentile, and exceedance counts.
*/
module Stats {
  import opened Seqs

  function Sum(s: seq<real>): real {
    if |s| == 0 then 0.0 else s[0] + Sum(s[1..])
  }

  /** Arithmetic mean of a nonempty sample. */
  function Mean(s: seq<real>): real
    requires |s| > 0
  {
    Sum(s) / |s| as real
  }

  lemma {:induction false} SumBounds(s: seq<real>, c: real)
    ensures (forall i :: 0 <= i < |s| ==> s[i] >= c) ==> Sum(s) >= |s| as real * c
    ensures (forall i :: 0 <= i < |s| ==> s[i] <= c) ==> Sum(s) <= |s| as real * c
  {
    if |s| > 0 {
      SumBounds(s[1..], c);
      assert forall i :: 0 <= i < |s| - 1 ==> s[1..][i] == s[i + 1];
    }
  }

  /** A mean lies between any common lower and any common upper bound of the sample. */
  lemma MeanBounds(s: seq<real>, c: real)
    requires |s| > 0
    ensures (forall i :: 0 <= i < |s| ==> s[i] >= c) ==> Mean(s) >= c
    ensures (forall i :: 0 <= i < |s| ==> s[i] <= c) ==> Mean(s) <= c
  {
    SumBounds(s, c);
    var n := |s| as real;
    assert Mean(s) * n == Sum(s);
  }

  function Min(s: seq<real>): (m: real)
    requires |s| > 0
    ensures forall i :: 0 <= i < |s| ==> m <= s[i]
    ensures exists i :: 0 <= i < |s| && s[i] == m
  {
    if |s| == 1 then s[0]
    else
      var rest := Min(s[1..]);
      if s[0] <= rest then s[0] else rest
  }

  function Max(s: seq<real>): (m: real)
    requires |s| > 0
    ensures forall i :: 0 <= i < |s| ==> s[i] <= m
    ensures exists i :: 0 <= i < |s| && s[i] == m
  {
    if |s| == 1 then s[0]
    else
      var rest := Max(s[1..]);
      if s[0] >= rest then s[0] else rest
  }

  predicate Sorted(s: seq<real>) {
    forall i, j :: 0 <= i <= j < |s| ==> s[i] <= s[j]
  }

  function Insert(x: real, s: seq<real>): (r: seq<real>)
    requires Sorted(s)
    ensures Sorted(r)
    ensures multiset(r) == multiset(s) + multiset{x}
    ensures |r| == |s| + 1
    ensures forall i :: 0 <= i < |r| ==> r[i] == x || r[i] in s
  {
    if |s| == 0 || x <= s[0] then [x] + s
    else
      assert s == [s[0]] + s[1..];
      var rest := Insert(x, s[1..]);
      assert forall i :: 0 <= i < |rest| ==> s[0] <= rest[i];
      [s[0]] + rest
  }

  /** The sample in ascending order. */
  function Sort(s: seq<real>): (r: seq<real>)
    ensures Sorted(r)
    ensures multiset(r) == multiset(s)
    ensures |r| == |s|
  {
    if |s| == 0 then []
    else
      assert s == [s[0]] + s[1..];
      Insert(s[0], Sort(s[1..]))
  }

  /** Sorting puts the minimum first and the maximum last. */
  lemma SortEnds(s: seq<real>)
    requires |s| > 0
    ensures Sort(s)[0] == Min(s)
    ensures Sort(s)[|s| - 1] == Max(s)
  {
    SortedEnds(Sort(s), s);
  }

  /** Any ascending rearrangement of a sample starts at its minimum and ends at its maximum. */
  lemma SortedEnds(r: seq<real>, s: seq<real>)
    requires |s| > 0 && Sorted(r) && multiset(r) == multiset(s)
    ensures |r| == |s| && r[0] == Min(s) && r[|r| - 1] == Max(s)
  {
    assert |r| == |multiset(r)| == |s|;
    assert r[0] in multiset(s) && r[|r| - 1] in multiset(s);
    var lo := Min(s);
    var hi := Max(s);
    var i :| 0 <= i < |s| && s[i] == lo;
    var j :| 0 <= j < |s| && s[j] == hi;
    assert lo in multiset(r) && hi in multiset(r);
    var k :| 0 <= k < |r| && r[k] == lo;
    var l :| 0 <= l < |r| && r[l] == hi;
    assert r[0] <= r[k] && r[l] <= r[|r| - 1];
  }

  /** Linear interpolation `lo + t * (hi - lo)`; it stays within [lo, hi] for t in [0, 1]. */
  function Lerp(lo: real, hi: real, t: real): (v: real)
    requires lo <= hi && 0.0 <= t <= 1.0
    ensures lo <= v <= hi
  {
    var d := hi - lo;
    assert t * d >= 0.0;
    assert (1.0 - t) * d >= 0.0;
    assert t * d + (1.0 - t) * d == d;
    lo + t * d
  }

  lemma LerpMonotone(lo: real, hi: real, t1: real, t2: real)
    requires lo <= hi && 0.0 <= t1 <= t2 <= 1.0
    ensures Lerp(lo, hi, t1) <= Lerp(lo, hi, t2)
  {
    var d := hi - lo;
    assert (t2 - t1) * d >= 0.0;
    assert t2 * d - t1 * d == (t2 - t1) * d;
  }

  /** Fractional position of the `q`-th percentile in a sample of `n` values. */
  function VirtualIndex(n: nat, q: real): real {
    (n - 1) as real * q / 100.0
  }

  lemma VirtualIndexRange(n: nat, q: real)
    requires n > 0 && 0.0 <= q <= 100.0
    ensures 0.0 <= VirtualIndex(n, q) <= (n - 1) as real
    ensures 0 <= VirtualIndex(n, q).Floor <= n - 1
  {
    var k := (n - 1) as real;
    assert 0.0 <= k * q <= k * 100.0;
  }

  /**
    The value at fractional position `h` of an ascending sample: the order
    statistic at `h`'s floor, interpolated linearly towards the next one.
  */
  function ValueAt(a: seq<real>, h: real): (v: real)
    requires |a| > 0 && Sorted(a) && 0.0 <= h <= (|a| - 1) as real
    ensures a[0] <= v <= a[|a| - 1]
  {
    var lo := h.Floor;
    if lo >= |a| - 1 then a[|a| - 1]
    else Lerp(a[lo], a[lo + 1], h - lo as real)
  }

  /**
    The `q`-th percentile of an ascending sample by linear interpolation
    between the two neighbouring order statistics (numpy's default method).
  */
  function PercentileOfSorted(a: seq<real>, q: real): (v: real)
    requires |a| > 0 && Sorted(a) && 0.0 <= q <= 100.0
    ensures a[0] <= v <= a[|a| - 1]
  {
    VirtualIndexRange(|a|, q);
    ValueAt(a, VirtualIndex(|a|, q))
  }

  /** `np.percentile(s, q)`. */
  function Percentile(s: seq<real>, q: real): real
    requires |s| > 0 && 0.0 <= q <= 100.0
  {
    PercentileOfSorted(Sort(s), q)
  }

  /** A percentile lies between the sample's minimum and maximum. */
  lemma PercentileWithinRange(s: seq<real>, q: real)
    requires |s| > 0 && 0.0 <= q <= 100.0
    ensures Min(s) <= Percentile(s, q) <= Max(s)
  {
    SortEnds(s);
  }

  lemma VirtualIndexMonotone(n: nat, q1: real, q2: real)
    requires n > 0 && q1 <= q2
    ensures VirtualIndex(n, q1) <= VirtualIndex(n, q2)
  {
    var k := (n - 1) as real;
    assert k * q1 <= k * q2;
  }

  /** Interpolated values of an ascending sample grow with the position. */
  lemma ValueAtMonotone(a: seq<real>, h1: real, h2: real)
    requires |a| > 0 && Sorted(a) && 0.0 <= h1 <= h2 <= (|a| - 1) as real
    ensures ValueAt(a, h1) <= ValueAt(a, h2)
  {
    var n := |a|;
    var f1 := h1.Floor;
    var f2 := h2.Floor;
    if f1 < n - 1 {
      if f1 == f2 {
        LerpMonotone(a[f1], a[f1 + 1], h1 - f1 as real, h2 - f2 as real);
      } else {
        assert ValueAt(a, h1) <= a[f1 + 1];
        assert a[f1 + 1] <= a[f2];
      }
    }
  }

  /** Percentiles of a sorted sample never decrease as the level grows. */
  lemma PercentileOfSortedMonotone(a: seq<real>, q1: real, q2: real)
    requires |a| > 0 && Sorted(a) && 0.0 <= q1 <= q2 <= 100.0
    ensures PercentileOfSorted(a, q1) <= PercentileOfSorted(a, q2)
  {
    VirtualIndexRange(|a|, q1);
    VirtualIndexRange(|a|, q2);
    VirtualIndexMonotone(|a|, q1, q2);
    ValueAtMonotone(a, VirtualIndex(|a|, q1), VirtualIndex(|a|, q2));
  }

  /** `np.percentile` is monotone in the level. */
  lemma PercentileMonotone(s: seq<real>, q1: real, q2: real)
    requires |s| > 0 && 0.0 <= q1 <= q2 <= 100.0
    ensures Percentile(s, q1) <= Percentile(s, q2)
  {
    PercentileOfSortedMonotone(Sort(s), q1, q2);
  }

  /** Number of sample values strictly above `c`. */
  function CountAbove(s: seq<real>, c: real): (n: nat)
    ensures n <= |s|
  {
    if |s| == 0 then 0 else (if s[0] > c then 1 else 0) + CountAbove(s[1..], c)
  }

  /** A higher bar is cleared by no more values. */
  lemma {:induction false} CountAboveAntitone(s: seq<real>, c1: real, c2: real)
    requires c1 <= c2
    ensures CountAbove(s, c2) <= CountAbove(s, c1)
  {
    if |s| > 0 {
      CountAboveAntitone(s[1..], c1, c2);
    }
  }

  /** `np.mean(s > c)`: the fraction of the sample strictly above `c`. */
  function FractionAbove(s: seq<real>, c: real): (f: real)
    requires |s| > 0
    ensures 0.0 <= f <= 1.0
  {
    var k := CountAbove(s, c) as real;
    var n := |s| as real;
    assert k / n <= 1.0 by {
      assert (k / n) * n == k;
    }
    k / n
  }

  lemma FractionAboveAntitone(s: seq<real>, c1: real, c2: real)
    requires |s| > 0 && c1 <= c2
    ensures FractionAbove(s, c2) <= FractionAbove(s, c1)
  {
    CountAboveAntitone(s, c1, c2);
    DivMonotone(CountAbove(s, c2) as real, CountAbove(s, c1) as real, |s| as real);
  }

  lemma DivMonotone(a: real, b: real, n: real)
    requires a <= b && n > 0.0
    ensures a / n <= b / n
  {
    assert b / n - a / n == (b - a) / n;
  }

  /**
    The values at or above `c`, in sample order: `s[s >= c]`. Every such
    value is kept as often as it occurs, so the tail's mean is numpy's.
  */
  function AtLeast(s: seq<real>, c: real): (r: seq<real>)
    ensures forall i :: 0 <= i < |r| ==> r[i] >= c
    ensures forall x :: x in r <==> x in s && x >= c
    ensures forall x :: Count(r, x) == if x >= c then Count(s, x) else 0
    ensures Subsequence(r, s)
  {
    if |s| == 0 then []
    else
      var rest := AtLeast(s[1..], c);
      if s[0] >= c then
        assert ([s[0]] + rest)[1..] == rest;
        [s[0]] + rest
      else rest
  }
}
