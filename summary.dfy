/** `generate_summary_statistics`: pandas `describe()` of every numeric column. */
module Summary {

  import opened Tables
  import opened Numeric
  import opened Quantiles
  import opened Dicts

  /** One column of `describe()`: the count of non-null values and, when there are any,
      mean, spread, minimum, quartiles and maximum. `variance` is the square of the
      `std` row; it is absent with fewer than two values, where pandas reports NaN. */
  datatype Stats = Stats(
    count: nat,
    mean: Option<real>,
    variance: Option<real>,
    min: Option<real>,
    q1: Option<real>,
    median: Option<real>,
    q3: Option<real>,
    max: Option<real>)

  /** The value stored under "summary_statistics": the numeric column names in sheet
      order and the statistics of each. */
  datatype SummaryInfo = SummaryInfo(numericalColumns: seq<string>, statistics: map<string, Stats>)

  /** `describe()` of one column: it counts the non-null cells, reports the other
      statistics exactly when there is one, and a spread from two on. */
  function Describe(cells: seq<Option<real>>): (d: Stats)
    ensures d.count == |cells| - MissingCount(cells)
    ensures d.count == 0 <==>
      d.mean.None? && d.min.None? && d.q1.None? && d.median.None? && d.q3.None? && d.max.None?
    ensures d.count > 0 ==>
      d.mean.Some? && d.min.Some? && d.q1.Some? && d.median.Some? && d.q3.Some? && d.max.Some?
    ensures d.variance.Some? <==> d.count >= 2
  {
    var xs := Present(cells);
    if xs == [] then Stats(0, None, None, None, None, None, None, None)
    else
      var s := Sort(xs);
      Stats(|xs|, Some(Mean(xs)), if |xs| >= 2 then Some(SampleVariance(xs)) else None,
            Some(s[0]), Some(Quantile(s, 0.25)), Some(Quantile(s, 0.5)), Some(Quantile(s, 0.75)),
            Some(s[|s| - 1]))
  }

  function StatsEntries(num: seq<Series<real>>): (es: seq<(string, Option<Stats>)>)
    ensures |es| == |num|
    ensures forall i :: 0 <= i < |num| ==> es[i] == (num[i].name, Some(Describe(num[i].cells)))
  {
    seq(|num|, i requires 0 <= i < |num| => (num[i].name, Some(Describe(num[i].cells))))
  }

  /** The summary of a sheet, or `None` when it has no numeric column (the early return
      that records nothing). */
  function SummaryOf(t: Table): Option<SummaryInfo>
  {
    var num := NumericColumns(t.columns);
    if num == [] then None
    else Some(SummaryInfo(Names(num), Collect(StatsEntries(num))))
  }

  /** The minimum and maximum are values of the column and bound all of them. */
  lemma DescribeRange(cells: seq<Option<real>>)
    requires Describe(cells).count > 0
    ensures var d := Describe(cells);
      && Some(d.min.value) in cells && Some(d.max.value) in cells
      && forall i :: 0 <= i < |cells| && cells[i].Some? ==> d.min.value <= cells[i].value <= d.max.value
  {
    var xs := Present(cells);
    var s := Sort(xs);
    SortedPermutationEnds(xs, s);
    var lo :| 0 <= lo < |xs| && xs[lo] == s[0];
    var hi :| 0 <= hi < |xs| && xs[hi] == s[|s| - 1];
    PresentFromCells(cells);
    forall i | 0 <= i < |cells| && cells[i].Some?
      ensures s[0] <= cells[i].value <= s[|s| - 1]
    {
      PresentHasCell(cells, i);
      var k :| 0 <= k < |xs| && xs[k] == cells[i].value;
    }
  }

  /** Quartiles come in order between the minimum and the maximum, and so does the mean. */
  lemma DescribeOrder(cells: seq<Option<real>>)
    requires Describe(cells).count > 0
    ensures var d := Describe(cells);
      && d.min.value <= d.q1.value <= d.median.value <= d.q3.value <= d.max.value
      && d.min.value <= d.mean.value <= d.max.value
  {
    var xs := Present(cells);
    var s := Sort(xs);
    QuartilesOrdered(s);
    SortedPermutationEnds(xs, s);
    MeanBounds(xs, s[0], s[|s| - 1]);
  }

  /** A constant column of two or more values has zero spread. */
  lemma DescribeConstant(cells: seq<Option<real>>)
    requires Describe(cells).count >= 2 && Constant(Present(cells))
    ensures Describe(cells).variance == Some(0.0)
  {
    ConstantHasZeroVariance(Present(cells));
  }

  /** The summary lists the numeric columns in sheet order and has statistics for exactly
      those columns; a sheet without numeric columns gives no summary. */
  lemma SummaryOfColumns(t: Table)
    ensures SummaryOf(t).None? <==> forall i :: 0 <= i < |t.columns| ==> !t.columns[i].cells.Numeric?
    ensures SummaryOf(t).Some? ==>
      var info := SummaryOf(t).value;
      && info.numericalColumns == Names(NumericColumns(t.columns))
      && forall name :: name in info.statistics <==> name in info.numericalColumns
  {
    var num := NumericColumns(t.columns);
    NoNumericColumns(t.columns);
    if num != [] {
      var es := StatsEntries(num);
      forall name
        ensures name in Collect(es) <==> name in Names(num)
      {
        CollectKeys(es, name);
      }
    }
  }

  /** On a well-formed sheet, each numeric column's statistics are its own `describe()`. */
  lemma SummaryOfStatistics(t: Table, i: nat)
    requires WellFormed(t) && i < |NumericColumns(t.columns)|
    ensures SummaryOf(t).Some?
    ensures var c := NumericColumns(t.columns)[i];
      c.name in SummaryOf(t).value.statistics && SummaryOf(t).value.statistics[c.name] == Describe(c.cells)
  {
    var num := NumericColumns(t.columns);
    NumericColumnsDistinct(t.columns);
    CollectDistinct(StatsEntries(num), i);
  }
}
