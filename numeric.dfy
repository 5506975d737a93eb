/** Arithmetic on a column's non-null values over exact reals: sum, mean, sample variance
    and ascending sort. */
module Numeric {

  import opened RealArith

  function Sum(xs: seq<real>): real
  {
    if xs == [] then 0.0 else xs[0] + Sum(xs[1..])
  }

  function Mean(xs: seq<real>): real
    requires |xs| > 0
  {
    Sum(xs) / |xs| as real
  }

  /** The sum of squared deviations from `m`. */
  function SquaredDeviations(xs: seq<real>, m: real): (r: real)
    ensures r >= 0.0
  {
    if xs == [] then 0.0
    else
      SquarePositive(xs[0] - m);
      (xs[0] - m) * (xs[0] - m) + SquaredDeviations(xs[1..], m)
  }

  /** Sample variance (ddof = 1): the square of the `std` pandas reports. Undefined with
      fewer than two values, where pandas yields NaN. */
  function SampleVariance(xs: seq<real>): (v: real)
    requires |xs| >= 2
    ensures v >= 0.0
  {
    SquaredDeviations(xs, Mean(xs)) / (|xs| - 1) as real
  }

  ghost predicate Constant(xs: seq<real>)
  {
    forall i, j :: 0 <= i < |xs| && 0 <= j < |xs| ==> xs[i] == xs[j]
  }

  lemma {:induction false} SumBounds(xs: seq<real>, lo: real, hi: real)
    requires forall i :: 0 <= i < |xs| ==> lo <= xs[i] <= hi
    ensures |xs| as real * lo <= Sum(xs) <= |xs| as real * hi
  {
    if xs != [] {
      SumBounds(xs[1..], lo, hi);
      assert |xs| as real * lo == lo + (|xs| - 1) as real * lo;
      assert |xs| as real * hi == hi + (|xs| - 1) as real * hi;
    }
  }

  /** The mean lies between any lower and upper bound of the values. */
  lemma MeanBounds(xs: seq<real>, lo: real, hi: real)
    requires |xs| > 0
    requires forall i :: 0 <= i < |xs| ==> lo <= xs[i] <= hi
    ensures lo <= Mean(xs) <= hi
  {
    SumBounds(xs, lo, hi);
    var n := |xs| as real;
    assert Sum(xs) / n >= lo by {
      assert Sum(xs) >= n * lo;
    }
    assert Sum(xs) / n <= hi by {
      assert Sum(xs) <= n * hi;
    }
  }

  lemma {:induction false} SquaredDeviationsOfConstant(xs: seq<real>, m: real)
    requires forall i :: 0 <= i < |xs| ==> xs[i] == m
    ensures SquaredDeviations(xs, m) == 0.0
  {
    if xs != [] {
      assert forall i :: 1 <= i < |xs| ==> xs[i] == xs[1..][i - 1];
      SquaredDeviationsOfConstant(xs[1..], m);
    }
  }

  lemma {:induction false} SumConstant(xs: seq<real>, c: real)
    requires forall i :: 0 <= i < |xs| ==> xs[i] == c
    ensures Sum(xs) == |xs| as real * c
  {
    if xs != [] {
      SumConstant(xs[1..], c);
      assert |xs| as real * c == c + (|xs| - 1) as real * c;
    }
  }

  /** A constant column has a sample standard deviation of zero. */
  lemma ConstantHasZeroVariance(xs: seq<real>)
    requires |xs| >= 2 && Constant(xs)
    ensures SampleVariance(xs) == 0.0
  {
    SumConstant(xs, xs[0]);
    assert Mean(xs) == xs[0];
    SquaredDeviationsOfConstant(xs, xs[0]);
  }

  ghost predicate SortedAsc(s: seq<real>)
  {
    forall i, j :: 0 <= i < j < |s| ==> s[i] <= s[j]
  }

  function Insert(x: real, s: seq<real>): (r: seq<real>)
    requires SortedAsc(s)
    ensures |r| == |s| + 1
    ensures r[0] == if s == [] || x <= s[0] then x else s[0]
    ensures SortedAsc(r)
    ensures multiset(r) == multiset(s) + multiset{x}
  {
    if s == [] || x <= s[0] then [x] + s
    else
      assert s == [s[0]] + s[1..];
      var rest := Insert(x, s[1..]);
      assert s[0] <= rest[0];
      [s[0]] + rest
  }

  /** The values in ascending order: a sorted permutation of the input. */
  function Sort(xs: seq<real>): (r: seq<real>)
    ensures SortedAsc(r)
    ensures multiset(r) == multiset(xs)
    ensures |r| == |xs|
  {
    if xs == [] then []
    else
      assert xs == [xs[0]] + xs[1..];
      Insert(xs[0], Sort(xs[1..]))
  }

  /** The first and last of sorted values that are a permutation of `xs` are values of
      `xs` and bound all of them. */
  lemma SortedPermutationEnds(xs: seq<real>, s: seq<real>)
    requires SortedAsc(s) && multiset(s) == multiset(xs) && |s| > 0
    ensures s[0] in xs && s[|s| - 1] in xs
    ensures forall i :: 0 <= i < |xs| ==> s[0] <= xs[i] <= s[|s| - 1]
  {
    assert s[0] in multiset(s) && s[|s| - 1] in multiset(s);
    forall i | 0 <= i < |xs|
      ensures s[0] <= xs[i] <= s[|s| - 1]
    {
      assert xs[i] in multiset(s);
      var k :| 0 <= k < |s| && s[k] == xs[i];
    }
  }

  /** Sorting already sorted values leaves them as they are. */
  lemma {:induction false} SortedIsSort(xs: seq<real>)
    requires SortedAsc(xs)
    ensures Sort(xs) == xs
  {
    if xs != [] {
      SortedIsSort(xs[1..]);
      assert xs == [xs[0]] + xs[1..];
    }
  }
}
