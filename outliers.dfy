/** `identify_outliers`: per numeric column, the non-null values outside the
    interquartile fences or with a z-score above the threshold. */
module Outliers {

  import opened Tables
  import opened RealArith
  import opened Numeric
  import opened Quantiles
  import opened Dicts

  /** The record kept for a column with outliers: how many, what share of the column's
      non-null values, and the first few of them in row order. */
  datatype OutlierInfo = OutlierInfo(count: nat, percentage: real, values: seq<real>)

  /** At most this many outlier values are listed in a record. */
  const ListedValues: nat := 10

  /** The fences `Q1 - threshold * IQR` and `Q3 + threshold * IQR`. */
  function Fences(q1: real, q3: real, threshold: real): (real, real)
  {
    (q1 - threshold * (q3 - q1), q3 + threshold * (q3 - q1))
  }

  function IqrBounds(xs: seq<real>, threshold: real): (real, real)
    requires |xs| > 0
  {
    var q := Quartiles(Sort(xs));
    Fences(q.0, q.1, threshold)
  }

  /** The values below `lo` or above `hi`, in row order (the boolean mask
      `(col < lo) | (col > hi)`). */
  function Outside(xs: seq<real>, lo: real, hi: real): (r: seq<real>)
    ensures |r| <= |xs|
    ensures forall i :: 0 <= i < |r| ==> r[i] in xs && (r[i] < lo || r[i] > hi)
    ensures forall i :: 0 <= i < |xs| && (xs[i] < lo || xs[i] > hi) ==> xs[i] in r
  {
    if xs == [] then []
    else
      assert forall i :: 1 <= i < |xs| ==> xs[i] == xs[1..][i - 1];
      (if xs[0] < lo || xs[0] > hi then [xs[0]] else []) + Outside(xs[1..], lo, hi)
  }

  /** The values strictly outside the fences, in row order. An empty column has NaN
      quartiles, so nothing compares as outside. */
  function IqrOutliers(xs: seq<real>, threshold: real): seq<real>
  {
    if xs == [] then []
    else
      var (lo, hi) := IqrBounds(xs, threshold);
      Outside(xs, lo, hi)
  }

  /** `abs((x - mean) / std) > threshold`, written without the square root: `var` is the
      square of `std`. */
  predicate ZFar(x: real, mean: real, variance: real, threshold: real)
  {
    threshold < 0.0 || (x - mean) * (x - mean) > threshold * threshold * variance
  }

  /** The values whose z-score exceeds the threshold, in row order. */
  function FarFrom(xs: seq<real>, mean: real, variance: real, threshold: real): (r: seq<real>)
    ensures |r| <= |xs|
    ensures forall i :: 0 <= i < |r| ==> r[i] in xs && ZFar(r[i], mean, variance, threshold)
    ensures forall i :: 0 <= i < |xs| && ZFar(xs[i], mean, variance, threshold) ==> xs[i] in r
  {
    if xs == [] then []
    else
      assert forall i :: 1 <= i < |xs| ==> xs[i] == xs[1..][i - 1];
      (if ZFar(xs[0], mean, variance, threshold) then [xs[0]] else [])
      + FarFrom(xs[1..], mean, variance, threshold)
  }

  /** A value outside the bounds is flagged as often as it occurs, any other value never. */
  lemma {:induction false} OutsideCounts(xs: seq<real>, lo: real, hi: real, v: real)
    ensures multiset(Outside(xs, lo, hi))[v] == if v < lo || v > hi then multiset(xs)[v] else 0
  {
    if xs != [] {
      assert xs == [xs[0]] + xs[1..];
      OutsideCounts(xs[1..], lo, hi, v);
    }
  }

  /** A value far from the mean is flagged as often as it occurs, any other value never. */
  lemma {:induction false} FarFromCounts(xs: seq<real>, mean: real, variance: real, threshold: real, v: real)
    ensures multiset(FarFrom(xs, mean, variance, threshold))[v]
      == if ZFar(v, mean, variance, threshold) then multiset(xs)[v] else 0
  {
    if xs != [] {
      assert xs == [xs[0]] + xs[1..];
      FarFromCounts(xs[1..], mean, variance, threshold, v);
    }
  }

  /** The outside values of a column split in two are those of each part, in order: the
      mask keeps row order. */
  lemma {:induction false} OutsideAppend(a: seq<real>, b: seq<real>, lo: real, hi: real)
    ensures Outside(a + b, lo, hi) == Outside(a, lo, hi) + Outside(b, lo, hi)
  {
    if a == [] {
      assert a + b == b;
    } else {
      assert (a + b)[0] == a[0];
      assert (a + b)[1..] == a[1..] + b;
      OutsideAppend(a[1..], b, lo, hi);
    }
  }

  /** The values far from the mean of a column split in two are those of each part, in
      order. */
  lemma {:induction false} FarFromAppend(a: seq<real>, b: seq<real>, mean: real, variance: real, threshold: real)
    ensures FarFrom(a + b, mean, variance, threshold)
      == FarFrom(a, mean, variance, threshold) + FarFrom(b, mean, variance, threshold)
  {
    if a == [] {
      assert a + b == b;
    } else {
      assert (a + b)[0] == a[0];
      assert (a + b)[1..] == a[1..] + b;
      FarFromAppend(a[1..], b, mean, variance, threshold);
    }
  }

  /** The z-score outliers, or `None` when the column is skipped because its standard
      deviation is zero. With fewer than two values the standard deviation is NaN: the
      column is not skipped and no z-score exceeds the threshold. */
  function ZScoreOutliers(xs: seq<real>, threshold: real): Option<seq<real>>
  {
    if |xs| < 2 then Some([])
    else
      var v := SampleVariance(xs);
      if v == 0.0 then None
      else
        var m := Mean(xs);
        Some(FarFrom(xs, m, v, threshold))
  }

  /** The outliers of one column by the named method; any name other than "iqr" and
      "zscore" falls back to the IQR method. `None` means the column is skipped. */
  function ColumnOutliers(xs: seq<real>, methodName: string, threshold: real): (r: Option<seq<real>>)
    ensures r.Some? ==> |r.value| <= |xs| && forall i :: 0 <= i < |r.value| ==> r.value[i] in xs
  {
    if methodName == "iqr" then Some(IqrOutliers(xs, threshold))
    else if methodName == "zscore" then ZScoreOutliers(xs, threshold)
    else Some(IqrOutliers(xs, threshold))
  }

  function Record(xs: seq<real>, found: seq<real>): OutlierInfo
    requires |xs| > 0
  {
    OutlierInfo(|found|, Percentage(|found|, |xs|),
                if |found| <= ListedValues then found else found[..ListedValues])
  }

  /** The dictionary entry for one column: present only when it has outliers. */
  function OutlierEntry(c: Series<real>, methodName: string, threshold: real): (string, Option<OutlierInfo>)
  {
    var xs := Present(c.cells);
    var found := ColumnOutliers(xs, methodName, threshold);
    (c.name, if found.Some? && found.value != [] then Some(Record(xs, found.value)) else None)
  }

  function OutlierEntries(num: seq<Series<real>>, methodName: string, threshold: real)
    : (es: seq<(string, Option<OutlierInfo>)>)
    ensures |es| == |num|
    ensures forall i :: 0 <= i < |num| ==> es[i] == OutlierEntry(num[i], methodName, threshold)
  {
    seq(|num|, i requires 0 <= i < |num| => OutlierEntry(num[i], methodName, threshold))
  }

  /** The outliers of a sheet, or `None` when it has no numeric column (the early return
      that records nothing). */
  function OutliersOf(t: Table, methodName: string, threshold: real): Option<map<string, OutlierInfo>>
  {
    var num := NumericColumns(t.columns);
    if num == [] then None else Some(Collect(OutlierEntries(num, methodName, threshold)))
  }

  /** The column loop of `identify_outliers`. */
  method ComputeOutliers(t: Table, methodName: string, threshold: real)
    returns (r: Option<map<string, OutlierInfo>>)
    ensures r == OutliersOf(t, methodName, threshold)
  {
    var num := NumericColumns(t.columns);
    if num == [] {
      return None;
    }
    var outliers: map<string, OutlierInfo> := map[];
    var i := 0;
    while i < |num|
      invariant 0 <= i <= |num|
      invariant outliers == Collect(OutlierEntries(num, methodName, threshold)[..i])
    {
      var col := num[i];
      var xs := Present(col.cells);
      var found: seq<real>;
      if methodName == "iqr" {
        found := IqrOutliers(xs, threshold);
      } else if methodName == "zscore" {
        if |xs| < 2 {
          found := [];
        } else {
          var mean := Mean(xs);
          var variance := SampleVariance(xs);
          if variance == 0.0 {
            assert ColumnOutliers(xs, methodName, threshold) == None;
            CollectNext(OutlierEntries(num, methodName, threshold), i);
            i := i + 1;
            continue;
          }
          found := FarFrom(xs, mean, variance, threshold);
        }
      } else {
        found := IqrOutliers(xs, threshold);
      }
      assert ColumnOutliers(xs, methodName, threshold) == Some(found);
      CollectNext(OutlierEntries(num, methodName, threshold), i);
      if found != [] {
        outliers := outliers[col.name := Record(xs, found)];
      }
      i := i + 1;
    }
    assert OutlierEntries(num, methodName, threshold)[..|num|] == OutlierEntries(num, methodName, threshold);
    return Some(outliers);
  }

  /** For a positive `std` with square `variance`, `ZFar` is exactly the z-score test. */
  lemma ZFarIsZScore(x: real, mean: real, std: real, threshold: real)
    requires 0.0 < std
    ensures ZFar(x, mean, std * std, threshold) <==> Abs((x - mean) / std) > threshold
  {
    var d := x - mean;
    DivAbs(d, std);
    DivGreater(Abs(d), std, threshold);
    if threshold >= 0.0 {
      MulNonneg(threshold, std);
      SquareGreater(Abs(d), threshold * std);
      assert Abs(d) * Abs(d) == d * d;
      assert (threshold * std) * (threshold * std) == threshold * threshold * (std * std);
    } else {
      assert Abs(d) / std >= 0.0;
    }
  }

  /** Given a column with a non-zero spread and its standard deviation `std` (the
      positive root of its variance), the z-score method flags exactly the values `x` with `abs((x - mean) / std) >
      threshold`. */
  lemma ZScoreOutliersCorrect(xs: seq<real>, threshold: real, std: real)
    requires |xs| >= 2 && 0.0 < SampleVariance(xs)
    requires 0.0 < std && std * std == SampleVariance(xs)
    ensures ZScoreOutliers(xs, threshold).Some?
    ensures var found := ZScoreOutliers(xs, threshold).value;
      && (forall i :: 0 <= i < |found| ==>
            found[i] in xs && Abs((found[i] - Mean(xs)) / std) > threshold)
      && (forall i :: 0 <= i < |xs| && Abs((xs[i] - Mean(xs)) / std) > threshold ==> xs[i] in found)
  {
    var v := SampleVariance(xs);
    assert ZScoreOutliers(xs, threshold) == Some(FarFrom(xs, Mean(xs), v, threshold));
    var found := FarFrom(xs, Mean(xs), v, threshold);
    forall i | 0 <= i < |xs|
      ensures ZFar(xs[i], Mean(xs), v, threshold) <==> Abs((xs[i] - Mean(xs)) / std) > threshold
    {
      ZFarIsZScore(xs[i], Mean(xs), std, threshold);
    }
    forall i | 0 <= i < |found|
      ensures ZFar(found[i], Mean(xs), v, threshold) <==> Abs((found[i] - Mean(xs)) / std) > threshold
    {
      ZFarIsZScore(found[i], Mean(xs), std, threshold);
    }
  }

  /** With the same assumptions, each value whose z-score exceeds the threshold is flagged
      as often as it occurs in the column, and no other value is flagged. */
  lemma ZScoreOutliersCounts(xs: seq<real>, threshold: real, std: real, v: real)
    requires |xs| >= 2 && 0.0 < SampleVariance(xs)
    requires 0.0 < std && std * std == SampleVariance(xs)
    ensures ZScoreOutliers(xs, threshold).Some?
    ensures multiset(ZScoreOutliers(xs, threshold).value)[v]
      == if Abs((v - Mean(xs)) / std) > threshold then multiset(xs)[v] else 0
  {
    var variance := SampleVariance(xs);
    assert ZScoreOutliers(xs, threshold) == Some(FarFrom(xs, Mean(xs), variance, threshold));
    FarFromCounts(xs, Mean(xs), variance, threshold, v);
    ZFarIsZScore(v, Mean(xs), std, threshold);
  }

  /** An IQR outlier is a value of the column strictly outside the fences, every such
      value is one, and each is flagged as often as it occurs. */
  lemma IqrOutliersCorrect(xs: seq<real>, threshold: real)
    requires |xs| > 0
    ensures var (lo, hi) := IqrBounds(xs, threshold);
      && (forall i :: 0 <= i < |IqrOutliers(xs, threshold)| ==>
            IqrOutliers(xs, threshold)[i] in xs && !(lo <= IqrOutliers(xs, threshold)[i] <= hi))
      && (forall i :: 0 <= i < |xs| && !(lo <= xs[i] <= hi) ==> xs[i] in IqrOutliers(xs, threshold))
      && (forall v :: multiset(IqrOutliers(xs, threshold))[v] == if lo <= v <= hi then 0 else multiset(xs)[v])
  {
    var (lo, hi) := IqrBounds(xs, threshold);
    forall v
      ensures multiset(IqrOutliers(xs, threshold))[v] == if lo <= v <= hi then 0 else multiset(xs)[v]
    {
      OutsideCounts(xs, lo, hi, v);
    }
  }

  /** With a non-negative threshold the fences enclose the quartiles, so no value between
      the quartiles is an outlier. */
  lemma IqrFencesEncloseQuartiles(xs: seq<real>, threshold: real)
    requires |xs| > 0 && 0.0 <= threshold
    ensures var q := Quartiles(Sort(xs));
      IqrBounds(xs, threshold).0 <= q.0 <= q.1 <= IqrBounds(xs, threshold).1
  {
    QuartilesOrdered(Sort(xs));
    FencesAround(Quartiles(Sort(xs)).0, Quartiles(Sort(xs)).1, threshold);
  }

  lemma FencesAround(q1: real, q3: real, threshold: real)
    requires q1 <= q3 && 0.0 <= threshold
    ensures Fences(q1, q3, threshold).0 <= q1 && q3 <= Fences(q1, q3, threshold).1
  {
    MulNonneg(threshold, q3 - q1);
  }

  /** A column of equal values has no outliers by either method: its fences collapse
      onto the value, and its standard deviation is zero, so the z-score method skips
      it. */
  lemma ConstantColumnHasNoOutliers(xs: seq<real>, methodName: string, threshold: real)
    requires Constant(xs)
    ensures ColumnOutliers(xs, methodName, threshold) == Some([])
         || ColumnOutliers(xs, methodName, threshold) == None
  {
    ConstantHasNoIqrOutliers(xs, threshold);
    if |xs| >= 2 {
      ConstantHasZeroVariance(xs);
    }
  }

  lemma ConstantHasNoIqrOutliers(xs: seq<real>, threshold: real)
    requires Constant(xs)
    ensures IqrOutliers(xs, threshold) == []
  {
    if xs != [] {
      var s := Sort(xs);
      var c := xs[0];
      forall k | 0 <= k < |s|
        ensures s[k] == c
      {
        assert s[k] in multiset(s);
        assert s[k] in xs;
      }
      ConstantQuantile(s, c, 0.25);
      ConstantQuantile(s, c, 0.75);
      FencesOfEqual(c, threshold);
      assert IqrBounds(xs, threshold) == (c, c);
      assert forall i :: 0 <= i < |xs| ==> c <= xs[i] <= c;
      OutsideNone(xs, c, c);
    }
  }

  /** Nothing is outside bounds that enclose every value. */
  lemma {:induction false} OutsideNone(xs: seq<real>, lo: real, hi: real)
    requires forall i :: 0 <= i < |xs| ==> lo <= xs[i] <= hi
    ensures Outside(xs, lo, hi) == []
  {
    if xs != [] {
      assert forall i :: 1 <= i < |xs| ==> xs[i] == xs[1..][i - 1];
      OutsideNone(xs[1..], lo, hi);
    }
  }

  lemma FencesOfEqual(c: real, threshold: real)
    ensures Fences(c, c, threshold) == (c, c)
  {
    assert c - c == 0.0;
  }

  lemma ConstantQuantile(s: seq<real>, c: real, q: real)
    requires |s| > 0 && 0.0 <= q <= 1.0
    requires forall k :: 0 <= k < |s| ==> s[k] == c
    ensures Quantile(s, q) == c
  {
    var pos := Position(|s|, q);
    var lo := pos.Floor;
    if lo + 1 < |s| {
      assert s[lo + 1] - s[lo] == 0.0;
    }
  }

  /** An unknown method name behaves exactly like "iqr". */
  lemma UnknownMethodIsIqr(t: Table, methodName: string, threshold: real)
    requires methodName != "iqr" && methodName != "zscore"
    ensures OutliersOf(t, methodName, threshold) == OutliersOf(t, "iqr", threshold)
  {
    var num := NumericColumns(t.columns);
    assert OutlierEntries(num, methodName, threshold) == OutlierEntries(num, "iqr", threshold);
  }

  ghost predicate WellShaped(info: OutlierInfo)
  {
    && 1 <= info.count
    && 0.0 < info.percentage <= 100.0
    && |info.values| == (if info.count <= ListedValues then info.count else ListedValues)
  }

  lemma {:induction false} RecordShape(xs: seq<real>, found: seq<real>)
    requires 0 < |found| <= |xs|
    ensures WellShaped(Record(xs, found))
    ensures Record(xs, found).values == found[..|Record(xs, found).values|]
  {
    PercentOf(|found|, |xs|);
  }

  /** Every recorded column has at least one outlier, a percentage in (0, 100], and lists
      the first `min(count, 10)` of its outliers. */
  lemma OutliersWellShaped(t: Table, methodName: string, threshold: real)
    requires OutliersOf(t, methodName, threshold).Some?
    ensures forall name :: name in OutliersOf(t, methodName, threshold).value ==>
      WellShaped(OutliersOf(t, methodName, threshold).value[name])
  {
    var num := NumericColumns(t.columns);
    var es := OutlierEntries(num, methodName, threshold);
    forall name | name in Collect(es)
      ensures WellShaped(Collect(es)[name])
    {
      CollectValues(es, name);
      var i :| 0 <= i < |es| && es[i].0 == name && es[i].1 == Some(Collect(es)[name]);
      var xs := Present(num[i].cells);
      var found := ColumnOutliers(xs, methodName, threshold);
      RecordShape(xs, found.value);
    }
  }

  /** On a well-formed sheet, a numeric column is recorded exactly when its method found
      outliers, and then with its own record. */
  lemma OutliersOfColumn(t: Table, methodName: string, threshold: real, i: nat)
    requires WellFormed(t) && i < |NumericColumns(t.columns)|
    ensures OutliersOf(t, methodName, threshold).Some?
    ensures var c := NumericColumns(t.columns)[i];
      var xs := Present(c.cells);
      var found := ColumnOutliers(xs, methodName, threshold);
      var m := OutliersOf(t, methodName, threshold).value;
      && (c.name in m <==> found.Some? && found.value != [])
      && (c.name in m ==> m[c.name] == Record(xs, found.value))
  {
    var num := NumericColumns(t.columns);
    var es := OutlierEntries(num, methodName, threshold);
    NumericColumnsDistinct(t.columns);
    assert DistinctFirsts(es) by {
      forall a, b | 0 <= a < b < |es|
        ensures es[a].0 != es[b].0
      {
        assert es[a].0 == num[a].name && es[b].0 == num[b].name;
      }
    }
    var c := num[i];
    assert es[i] == OutlierEntry(c, methodName, threshold);
    CollectKeys(es, c.name);
    if es[i].1.Some? {
      CollectDistinct(es, i);
    }
  }

  /** [1, 2, 3, 100] has quartiles 1.75 and 27.25, hence fences -36.5 and 65.5 at
      threshold 1.5. */
  lemma IqrExampleFourBounds()
    ensures Quartiles(Sort([1.0, 2.0, 3.0, 100.0])) == (1.75, 27.25)
    ensures IqrBounds([1.0, 2.0, 3.0, 100.0], 1.5) == (-36.5, 65.5)
  {
    SortFour();
    QuartilesOfFour([1.0, 2.0, 3.0, 100.0]);
  }

  lemma SortFour()
    ensures Sort([1.0, 2.0, 3.0, 100.0]) == [1.0, 2.0, 3.0, 100.0]
  {
    var xs := [1.0, 2.0, 3.0, 100.0];
    assert SortedAsc(xs);
    SortedIsSort(xs);
  }

  /** So 100 is an outlier of [1, 2, 3, 100]. */
  lemma IqrExampleFour()
    ensures IqrOutliers([1.0, 2.0, 3.0, 100.0], 1.5) == [100.0]
  {
    var xs := [1.0, 2.0, 3.0, 100.0];
    IqrExampleFourBounds();
    assert xs[1..] == [2.0, 3.0, 100.0];
    assert xs[1..][1..] == [3.0, 100.0];
    assert xs[1..][1..][1..] == [100.0];
  }

  lemma SortFive()
    ensures Sort([1.0, 2.0, 3.0, 4.0, 1000.0]) == [1.0, 2.0, 3.0, 4.0, 1000.0]
  {
    var xs := [1.0, 2.0, 3.0, 4.0, 1000.0];
    assert SortedAsc(xs);
    SortedIsSort(xs);
  }

  /** [1, 2, 3, 4, 1000] has quartiles 2 and 4, hence fences -1 and 7 at threshold 1.5. */
  lemma IqrExampleFiveBounds()
    ensures IqrBounds([1.0, 2.0, 3.0, 4.0, 1000.0], 1.5) == (-1.0, 7.0)
  {
    SortFive();
    QuartilesOfFive([1.0, 2.0, 3.0, 4.0, 1000.0]);
  }

  /** So 1000 is the only outlier of [1, 2, 3, 4, 1000]. */
  lemma IqrExampleFive()
    ensures IqrOutliers([1.0, 2.0, 3.0, 4.0, 1000.0], 1.5) == [1000.0]
  {
    IqrExampleFiveBounds();
    OutsideFive();
  }

  lemma OutsideFive()
    ensures Outside([1.0, 2.0, 3.0, 4.0, 1000.0], -1.0, 7.0) == [1000.0]
  {
    var xs := [1.0, 2.0, 3.0, 4.0, 1000.0];
    assert xs[1..] == [2.0, 3.0, 4.0, 1000.0];
    assert xs[1..][1..] == [3.0, 4.0, 1000.0];
    assert xs[1..][1..][1..] == [4.0, 1000.0];
    assert xs[1..][1..][1..][1..] == [1000.0];
  }
}
