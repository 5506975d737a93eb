/** `analyze_date_columns`: which columns count as dates, and for each its earliest and
    latest date, its range, its missing dates and, with enough dates, its weekday, month
    and year distributions. */
module Dates {

  import opened Tables
  import opened RealArith
  import opened Counting
  import opened Dicts

  /** `pd.to_datetime(column, errors='coerce')` as day numbers, a cell that does not parse
      becoming null; `None` when the conversion raises. It is a parameter of the model. */
  type Converter = Column -> Option<seq<Option<int>>>

  /** What `errors='coerce'` guarantees: a conversion that succeeds gives one cell per
      row, and a null cell stays null. */
  ghost predicate Coerces(convert: Converter)
  {
    forall c: Column :: convert(c).Some? ==>
      && |convert(c).value| == Length(c.cells)
      && forall i :: 0 <= i < |convert(c).value| && IsNull(c.cells, i) ==> convert(c).value[i].None?
  }

  /** The calendar of a day number: its weekday name (`dt.day_name()`), its month name
      (`dt.month_name()`) and its year (`dt.year`). A parameter of the model. */
  datatype Calendar = Calendar(dayName: int -> string, monthName: int -> string, year: int -> int)

  /** The three frequency tables reported for a column with more than ten dates. */
  datatype Distributions = Distributions(
    dayOfWeek: seq<(string, nat)>,
    month: seq<(string, nat)>,
    year: seq<(int, nat)>)

  /** The record of one date column. Dates are day numbers; `None` stands for the null
      `min_date`, `max_date` and `range_days` of a column without dates and for the NaN
      missing share of an empty column. */
  datatype DateInfo = DateInfo(
    minDate: Option<int>,
    maxDate: Option<int>,
    rangeDays: Option<int>,
    missingValues: nat,
    missingPercentage: Option<real>,
    distributions: Option<Distributions>)

  /** The least of some day numbers. */
  function MinOf(xs: seq<int>): int
    requires |xs| > 0
  {
    if |xs| == 1 then xs[0]
    else
      var rest := MinOf(xs[1..]);
      if xs[0] <= rest then xs[0] else rest
  }

  /** The greatest of some day numbers. */
  function MaxOf(xs: seq<int>): int
    requires |xs| > 0
  {
    if |xs| == 1 then xs[0]
    else
      var rest := MaxOf(xs[1..]);
      if xs[0] >= rest then xs[0] else rest
  }

  /** The least day number is one of them and no greater than any of them. */
  lemma {:induction false} MinOfIsLeast(xs: seq<int>)
    requires |xs| > 0
    ensures MinOf(xs) in xs
    ensures forall i :: 0 <= i < |xs| ==> MinOf(xs) <= xs[i]
  {
    if |xs| > 1 {
      MinOfIsLeast(xs[1..]);
      assert forall i :: 1 <= i < |xs| ==> xs[i] == xs[1..][i - 1];
    }
  }

  /** The greatest day number is one of them and no less than any of them. */
  lemma {:induction false} MaxOfIsGreatest(xs: seq<int>)
    requires |xs| > 0
    ensures MaxOf(xs) in xs
    ensures forall i :: 0 <= i < |xs| ==> xs[i] <= MaxOf(xs)
  {
    if |xs| > 1 {
      MaxOfIsGreatest(xs[1..]);
      assert forall i :: 1 <= i < |xs| ==> xs[i] == xs[1..][i - 1];
    }
  }

  /** `f` applied to every element (`Series.dt` accessors). */
  function Apply<A, B>(f: A -> B, xs: seq<A>): (r: seq<B>)
    ensures |r| == |xs|
    ensures forall i :: 0 <= i < |xs| ==> r[i] == f(xs[i])
  {
    seq(|xs|, i requires 0 <= i < |xs| => f(xs[i]))
  }

  /** A converted column is kept unless fewer than 70% of its cells are dates; on an empty
      column the ratio is NaN, and NaN is not below 0.7. */
  predicate MostlyDates(days: seq<Option<int>>)
  {
    |days| == 0 || !(|Present(days)| as real / |days| as real < 0.7)
  }

  /** The cells of a column as dates, or `None` when the column is not a date column: a
      timestamp column as it is, any other column when its conversion succeeds and is
      mostly dates. */
  function DateCells(c: Column, convert: Converter): Option<seq<Option<int>>>
  {
    if c.cells.Timestamps? then Some(c.cells.days)
    else
      var converted := convert(c);
      if converted.Some? && MostlyDates(converted.value) then converted else None
  }

  /** `value_counts()` of the weekday names, month names and years of the dates `vs`. */
  function Distribution(vs: seq<int>, cal: Calendar): Distributions
  {
    Distributions(
      ValueCounts(Apply(cal.dayName, vs)),
      ValueCounts(Apply(cal.monthName, vs)),
      ValueCounts(Apply(cal.year, vs)))
  }

  /** The record `analyze_date_columns` builds for a column with these dates. */
  function Info(days: seq<Option<int>>, cal: Calendar): DateInfo
  {
    var vs := Present(days);
    var minDate := if vs == [] then None else Some(MinOf(vs));
    var maxDate := if vs == [] then None else Some(MaxOf(vs));
    var missing := MissingCount(days);
    DateInfo(
      minDate,
      maxDate,
      if minDate.Some? && maxDate.Some? then Some(maxDate.value - minDate.value) else None,
      missing,
      if |days| == 0 then None else Some(Percentage(missing, |days|)),
      if |vs| > 10 then Some(Distribution(vs, cal)) else None)
  }

  /** The dictionary entry for one column: present only for a date column. */
  function DateEntry(c: Column, convert: Converter, cal: Calendar): (string, Option<DateInfo>)
  {
    var days := DateCells(c, convert);
    (c.name, if days.Some? then Some(Info(days.value, cal)) else None)
  }

  function DateEntries(cols: seq<Column>, convert: Converter, cal: Calendar)
    : (es: seq<(string, Option<DateInfo>)>)
    ensures |es| == |cols|
    ensures forall i :: 0 <= i < |cols| ==> es[i] == DateEntry(cols[i], convert, cal)
  {
    seq(|cols|, i requires 0 <= i < |cols| => DateEntry(cols[i], convert, cal))
  }

  /** The date analysis of a sheet. Unlike the other passes it has no early return: a
      sheet without date columns gives the empty dictionary. */
  function DatesOf(t: Table, convert: Converter, cal: Calendar): map<string, DateInfo>
  {
    Collect(DateEntries(t.columns, convert, cal))
  }

  /** The column loop of `analyze_date_columns`. */
  method ComputeDates(t: Table, convert: Converter, cal: Calendar) returns (r: map<string, DateInfo>)
    ensures r == DatesOf(t, convert, cal)
  {
    var analysis: map<string, DateInfo> := map[];
    var i := 0;
    while i < |t.columns|
      invariant 0 <= i <= |t.columns|
      invariant analysis == Collect(DateEntries(t.columns, convert, cal)[..i])
    {
      var col := t.columns[i];
      CollectNext(DateEntries(t.columns, convert, cal), i);
      var days: seq<Option<int>>;
      if col.cells.Timestamps? {
        days := col.cells.days;
      } else {
        var converted := convert(col);
        if converted.None? {
          i := i + 1;
          continue;
        }
        days := converted.value;
        if !MostlyDates(days) {
          i := i + 1;
          continue;
        }
      }
      assert DateCells(col, convert) == Some(days);
      analysis := analysis[col.name := Info(days, cal)];
      i := i + 1;
    }
    assert DateEntries(t.columns, convert, cal)[..|t.columns|] == DateEntries(t.columns, convert, cal);
    return analysis;
  }

  /** The 70% rule without division: kept exactly when ten times the dates reach seven
      times the cells. */
  lemma MostlyDatesIff(days: seq<Option<int>>)
    ensures MostlyDates(days) <==> 10 * |Present(days)| >= 7 * |days|
  {
    if |days| > 0 {
      DivAtLeast(|Present(days)| as real, |days| as real, 0.7);
    }
  }

  /** A timestamp column is always a date column; any other column is one exactly when its
      conversion succeeds with at least 70% of its cells dates. */
  lemma DateCellsRule(c: Column, convert: Converter)
    ensures c.cells.Timestamps? ==> DateCells(c, convert) == Some(c.cells.days)
    ensures !c.cells.Timestamps? ==>
      (DateCells(c, convert).Some? <==>
        convert(c).Some? && 10 * |Present(convert(c).value)| >= 7 * |convert(c).value|)
    ensures !c.cells.Timestamps? && DateCells(c, convert).Some? ==> DateCells(c, convert) == convert(c)
  {
    if convert(c).Some? {
      MostlyDatesIff(convert(c).value);
    }
  }

  /** A column has an earliest and latest date exactly when not all its cells are null;
      then both are dates of the column, they bound every date of it, and the range is
      their non-negative difference. */
  lemma InfoRange(days: seq<Option<int>>, cal: Calendar)
    ensures var d := Info(days, cal);
      && (d.minDate.None? <==> d.missingValues == |days|)
      && d.minDate.Some? == d.maxDate.Some? == d.rangeDays.Some?
    ensures var d := Info(days, cal);
      d.minDate.Some? ==>
        && Some(d.minDate.value) in days && Some(d.maxDate.value) in days
        && (forall i :: 0 <= i < |days| && days[i].Some? ==> d.minDate.value <= days[i].value <= d.maxDate.value)
        && d.rangeDays.value == d.maxDate.value - d.minDate.value >= 0
  {
    var vs := Present(days);
    if vs != [] {
      var lo, hi := MinOf(vs), MaxOf(vs);
      MinOfIsLeast(vs);
      MaxOfIsGreatest(vs);
      PresentFromCells(days);
      var a :| 0 <= a < |vs| && vs[a] == lo;
      var b :| 0 <= b < |vs| && vs[b] == hi;
      forall i | 0 <= i < |days| && days[i].Some?
        ensures lo <= days[i].value <= hi
      {
        PresentHasCell(days, i);
        var k :| 0 <= k < |vs| && vs[k] == days[i].value;
      }
    }
  }

  /** The null and non-null cells make up the column, and the missing share is in
      [0, 100], NaN only on an empty column. */
  lemma InfoMissing(days: seq<Option<int>>, cal: Calendar)
    ensures var d := Info(days, cal);
      && d.missingValues + |Present(days)| == |days|
      && (d.missingPercentage.Some? <==> |days| > 0)
      && (d.missingPercentage.Some? ==> 0.0 <= d.missingPercentage.value <= 100.0)
  {
    if |days| > 0 {
      PercentOf(MissingCount(days), |days|);
    }
  }

  /** The distributions are reported exactly when there are more than ten dates, and each
      of them then counts every date once. */
  lemma InfoDistributions(days: seq<Option<int>>, cal: Calendar)
    ensures Info(days, cal).distributions.Some? <==> |Present(days)| > 10
    ensures Info(days, cal).distributions.Some? ==>
      var d := Info(days, cal).distributions.value;
      && Total(d.dayOfWeek) == |Present(days)|
      && Total(d.month) == |Present(days)|
      && Total(d.year) == |Present(days)|
  {
    var vs := Present(days);
    ValueCountsSize(Apply(cal.dayName, vs));
    ValueCountsSize(Apply(cal.monthName, vs));
    ValueCountsSize(Apply(cal.year, vs));
  }

  /** Each year listed in the year distribution is the year of that many dates, and at
      least one. */
  lemma YearCounts(vs: seq<int>, cal: Calendar)
    ensures var d := Distribution(vs, cal).year;
      forall i :: 0 <= i < |d| ==> d[i].1 == multiset(Apply(cal.year, vs))[d[i].0] > 0
  {
    ValueCountsCount(Apply(cal.year, vs));
  }

  /** Every year of a date is listed in the year distribution. */
  lemma YearListed(vs: seq<int>, cal: Calendar, k: nat) returns (p: nat)
    requires k < |vs|
    ensures p < |Distribution(vs, cal).year| && Distribution(vs, cal).year[p].0 == cal.year(vs[k])
  {
    var ys := Apply(cal.year, vs);
    assert ys[k] == cal.year(vs[k]);
    p := ValueCountsFind(ys, cal.year(vs[k]));
  }

  /** The keys of the analysis are the names of the date columns. */
  lemma DatesKeys(t: Table, convert: Converter, cal: Calendar, name: string)
    ensures name in DatesOf(t, convert, cal) <==>
      exists i :: 0 <= i < |t.columns| && t.columns[i].name == name && DateCells(t.columns[i], convert).Some?
  {
    var es := DateEntries(t.columns, convert, cal);
    CollectKeys(es, name);
    if exists i :: 0 <= i < |t.columns| && t.columns[i].name == name && DateCells(t.columns[i], convert).Some? {
      var i :| 0 <= i < |t.columns| && t.columns[i].name == name && DateCells(t.columns[i], convert).Some?;
      assert es[i].0 == name && es[i].1.Some?;
    }
  }

  /** On a well-formed sheet, each date column's record is the record of its own dates. */
  lemma DatesOfColumn(t: Table, convert: Converter, cal: Calendar, i: nat)
    requires WellFormed(t) && i < |t.columns| && DateCells(t.columns[i], convert).Some?
    ensures t.columns[i].name in DatesOf(t, convert, cal)
    ensures DatesOf(t, convert, cal)[t.columns[i].name] == Info(DateCells(t.columns[i], convert).value, cal)
  {
    CollectDistinct(DateEntries(t.columns, convert, cal), i);
  }

  /** With a coercing converter, the dates of a kept column have one cell per row and at
      least as many nulls as the column itself: the missing share is over the sheet's rows. */
  lemma DateCellsShape(c: Column, convert: Converter)
    requires Coerces(convert) && DateCells(c, convert).Some?
    ensures |DateCells(c, convert).value| == Length(c.cells)
    ensures MissingCount(DateCells(c, convert).value) >= NullCount(c.cells)
  {
    var days := DateCells(c, convert).value;
    if !c.cells.Timestamps? {
      assert convert(c).Some?;
      match c.cells
      case Numeric(s) =>
        MissingCountAtMost(s, days);
      case Text(s) =>
        MissingCountAtMost(s, days);
      case Flags(_) =>
    }
  }

  /** On a well-formed sheet and with a coercing converter, each kept column's missing
      count is at least its null cells and at most the rows, and its missing share is that
      count over the rows. */
  lemma DatesMissingOfRows(t: Table, convert: Converter, cal: Calendar, i: nat)
    requires WellFormed(t) && Coerces(convert)
    requires i < |t.columns| && DateCells(t.columns[i], convert).Some?
    ensures t.columns[i].name in DatesOf(t, convert, cal)
    ensures var info := DatesOf(t, convert, cal)[t.columns[i].name];
      && NullCount(t.columns[i].cells) <= info.missingValues <= t.rows
      && (t.rows > 0 ==> info.missingPercentage == Some(Percentage(info.missingValues, t.rows)))
      && (t.rows == 0 ==> info.missingPercentage.None?)
  {
    DatesOfColumn(t, convert, cal, i);
    DateCellsShape(t.columns[i], convert);
    InfoMissing(DateCells(t.columns[i], convert).value, cal);
  }
}
