/** Quantiles by linear interpolation between the two closest ranks, the pandas and
    numpy default, over exact reals. */
module Quantiles {

  import opened RealArith
  import opened Numeric

  /** The fractional rank (n - 1) * q of the `q`-quantile among n sorted values. */
  function Position(n: nat, q: real): (pos: real)
    requires n > 0 && 0.0 <= q <= 1.0
    ensures pos == q * (n - 1) as real
    ensures 0.0 <= pos <= (n - 1) as real
    ensures 0 <= pos.Floor < n
  {
    FractionOf(q, (n - 1) as real);
    q * (n - 1) as real
  }

  /** The point a fraction `f` of the way from rank `lo` to rank `lo + 1`. */
  function Interpolate(s: seq<real>, lo: int, f: real): real
    requires 0 <= lo < |s|
  {
    if lo + 1 < |s| then s[lo] + f * (s[lo + 1] - s[lo]) else s[lo]
  }

  /** The `q`-quantile of a sorted sequence by linear interpolation between the two
      closest ranks (the pandas and numpy default). */
  function Quantile(s: seq<real>, q: real): real
    requires |s| > 0 && 0.0 <= q <= 1.0
  {
    var pos := Position(|s|, q);
    Interpolate(s, pos.Floor, pos - pos.Floor as real)
  }

  lemma InterpolateBetween(s: seq<real>, lo: int, f: real)
    requires SortedAsc(s) && 0 <= lo < |s| && 0.0 <= f <= 1.0
    ensures s[lo] <= Interpolate(s, lo, f)
    ensures lo + 1 < |s| ==> Interpolate(s, lo, f) <= s[lo + 1]
  {
    if lo + 1 < |s| {
      MulMonotone(0.0, f, s[lo + 1] - s[lo]);
      MulMonotone(f, 1.0, s[lo + 1] - s[lo]);
    }
  }

  lemma InterpolateMonotone(s: seq<real>, lo1: int, f1: real, lo2: int, f2: real)
    requires SortedAsc(s) && 0 <= lo1 <= lo2 < |s|
    requires 0.0 <= f1 <= 1.0 && 0.0 <= f2 <= 1.0
    requires lo1 == lo2 ==> f1 <= f2
    ensures Interpolate(s, lo1, f1) <= Interpolate(s, lo2, f2)
  {
    InterpolateBetween(s, lo1, f1);
    InterpolateBetween(s, lo2, f2);
    if lo1 == lo2 && lo1 + 1 < |s| {
      MulMonotone(f1, f2, s[lo1 + 1] - s[lo1]);
    }
  }

  /** A quantile of sorted values lies between the smallest and the largest value. */
  lemma QuantileBetween(s: seq<real>, q: real)
    requires |s| > 0 && 0.0 <= q <= 1.0 && SortedAsc(s)
    ensures s[0] <= Quantile(s, q) <= s[|s| - 1]
  {
    var pos := Position(|s|, q);
    var lo := pos.Floor;
    InterpolateBetween(s, lo, pos - lo as real);
    if lo + 1 < |s| {
      assert s[lo + 1] <= s[|s| - 1];
    }
  }

  /** Quantiles of sorted values are monotone in their position. */
  lemma QuantileMonotone(s: seq<real>, q1: real, q2: real)
    requires |s| > 0 && 0.0 <= q1 <= 1.0 && 0.0 <= q2 <= 1.0 && SortedAsc(s)
    requires Position(|s|, q1) <= Position(|s|, q2)
    ensures Quantile(s, q1) <= Quantile(s, q2)
  {
    var pos1, pos2 := Position(|s|, q1), Position(|s|, q2);
    InterpolateMonotone(s, pos1.Floor, pos1 - pos1.Floor as real, pos2.Floor, pos2 - pos2.Floor as real);
  }

  /** Minimum, lower quartile, median, upper quartile and maximum come in that order. */
  lemma QuartilesOrdered(s: seq<real>)
    requires |s| > 0 && SortedAsc(s)
    ensures s[0] <= Quantile(s, 0.25) <= Quantile(s, 0.5) <= Quantile(s, 0.75) <= s[|s| - 1]
  {
    QuantileBetween(s, 0.25);
    QuantileBetween(s, 0.75);
    QuantileMonotone(s, 0.25, 0.5);
    QuantileMonotone(s, 0.5, 0.75);
  }

  /** The 0-quantile is the smallest value and the 1-quantile the largest. */
  lemma QuantileEnds(s: seq<real>)
    requires |s| > 0
    ensures Quantile(s, 0.0) == s[0]
    ensures Quantile(s, 1.0) == s[|s| - 1]
  {
    assert Position(|s|, 0.0) == 0.0;
    assert Position(|s|, 1.0) == (|s| - 1) as real;
  }

  /** The lower and upper quartiles of values in ascending order. */
  function Quartiles(s: seq<real>): (real, real)
    requires |s| > 0
  {
    (Quantile(s, 0.25), Quantile(s, 0.75))
  }

  /** The `q`-quantile when the fractional rank `q * (n - 1)` is `lo + f`. */
  lemma QuantileAt(s: seq<real>, q: real, lo: nat, f: real)
    requires 0 <= lo < |s| && 0.0 <= q <= 1.0 && 0.0 <= f < 1.0
    requires q * (|s| - 1) as real == lo as real + f
    ensures Quantile(s, q) == if lo + 1 < |s| then s[lo] + f * (s[lo + 1] - s[lo]) else s[lo]
  {
    var pos := Position(|s|, q);
    assert pos == lo as real + f;
    assert pos.Floor == lo;
    assert pos - pos.Floor as real == f;
    assert Quantile(s, q) == Interpolate(s, lo, f);
  }

  /** The quartiles of four values: three quarters of the way from the first to the
      second, and a quarter of the way from the third to the fourth. */
  lemma QuartilesOfFour(s: seq<real>)
    requires |s| == 4
    ensures Quartiles(s) == (s[0] + 0.75 * (s[1] - s[0]), s[2] + 0.25 * (s[3] - s[2]))
  {
    assert 0.25 * (|s| - 1) as real == 0.0 + 0.75;
    assert 0.75 * (|s| - 1) as real == 2.0 + 0.25;
    QuantileAt(s, 0.25, 0, 0.75);
    QuantileAt(s, 0.75, 2, 0.25);
    var q1, q3 := Quantile(s, 0.25), Quantile(s, 0.75);
    assert q1 == s[0] + 0.75 * (s[1] - s[0]);
    assert q3 == s[2] + 0.25 * (s[3] - s[2]);
    assert Quartiles(s) == (q1, q3);
  }

  /** The quartiles of five values are the second and the fourth. */
  lemma QuartilesOfFive(s: seq<real>)
    requires |s| == 5
    ensures Quartiles(s) == (s[1], s[3])
  {
    assert 0.25 * (|s| - 1) as real == 1.0 + 0.0;
    assert 0.75 * (|s| - 1) as real == 3.0 + 0.0;
    QuantileAt(s, 0.25, 1, 0.0);
    QuantileAt(s, 0.75, 3, 0.0);
  }
}
