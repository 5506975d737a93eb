/** `analyze_categorical_data`: value counts, the most frequent categories and their
    shares, and the unique and missing counts of every text column. */
module Categorical {

  import opened Tables
  import opened RealArith
  import opened Counting
  import opened Dicts

  /** The record of one text column. The two category lists are dictionaries in the
      source; their order here is the order `value_counts` gives. */
  datatype CategoryProfile = CategoryProfile(
    uniqueValues: nat,
    missingValues: nat,
    missingPercentage: Option<real>,       // `None` for NaN on a sheet without rows
    topCategories: seq<(string, nat)>,
    topCategoriesPct: seq<(string, real)>)

  /** The share of the non-null values each category has, in percent. */
  function Percentages(top: seq<(string, nat)>, total: nat): (p: seq<(string, real)>)
    ensures |p| == if total == 0 then 0 else |top|
    ensures forall i :: 0 <= i < |p| ==> p[i].0 == top[i].0
  {
    if total == 0 then []
    else seq(|top|, i requires 0 <= i < |top| => (top[i].0, Percentage(top[i].1, total)))
  }

  /** `value_counts().head(top_n)` over the non-null values `vs`. */
  function TopCategories(vs: seq<string>, topN: int): seq<(string, nat)>
  {
    Head(ValueCounts(vs), topN)
  }

  /** The record `analyze_categorical_data` builds for a column with these cells, on a
      sheet with `rows` rows. */
  function Profile(cells: seq<Option<string>>, rows: nat, topN: int): CategoryProfile
  {
    var vs := Present(cells);
    var top := TopCategories(vs, topN);
    var missing := MissingCount(cells);
    CategoryProfile(
      |Uniques(vs)|,
      missing,
      if rows == 0 then None else Some(Percentage(missing, rows)),
      top,
      Percentages(top, |vs|))
  }

  /** `v` is one of the keys of `top`. */
  ghost predicate IsKey(top: seq<(string, nat)>, v: string)
  {
    exists k :: 0 <= k < |top| && top[k].0 == v
  }

  /** `top_n` categories are listed, or all of them when there are fewer. */
  lemma TopLength(vs: seq<string>, topN: int)
    ensures topN >= 0 ==> |TopCategories(vs, topN)| == if topN <= |Uniques(vs)| then topN else |Uniques(vs)|
    ensures |TopCategories(vs, topN)| <= |Uniques(vs)|
  {
    ValueCountsSize(vs);
  }

  /** The listed categories are distinct and most frequent first. */
  lemma TopOrder(vs: seq<string>, topN: int)
    ensures SortedByCount(TopCategories(vs, topN)) && DistinctKeys(TopCategories(vs, topN))
  {
    ValueCountsOrder(vs);
  }

  /** Each listed category is a non-null value, with the number of times it occurs. */
  lemma TopOccurrences(vs: seq<string>, topN: int)
    ensures var top := TopCategories(vs, topN);
      forall i :: 0 <= i < |top| ==> top[i].1 == multiset(vs)[top[i].0] > 0
  {
    ValueCountsCount(vs);
  }

  /** Together the listed categories count no more than the non-null values. */
  lemma TopTotal(vs: seq<string>, topN: int)
    ensures Total(TopCategories(vs, topN)) <= |vs|
  {
    var vc := ValueCounts(vs);
    ValueCountsSize(vs);
    TotalPrefix(vc, |TopCategories(vs, topN)|);
  }

  /** No value left out occurs more often than any value listed. */
  lemma TopMostFrequent(vs: seq<string>, topN: int, v: string, i: nat)
    requires v in vs && !IsKey(TopCategories(vs, topN), v) && i < |TopCategories(vs, topN)|
    ensures multiset(vs)[v] <= TopCategories(vs, topN)[i].1
  {
    var vc := ValueCounts(vs);
    var top := TopCategories(vs, topN);
    ValueCountsOrder(vs);
    var p := ValueCountsFind(vs, v);
    if p < |top| {
      assert false;
    }
    assert top[i] == vc[i];
  }

  /** A `top_n` of at least the number of distinct values lists every one of them. */
  lemma TopComplete(vs: seq<string>, topN: int, v: string)
    requires topN >= |Uniques(vs)| && v in vs
    ensures IsKey(TopCategories(vs, topN), v)
  {
    var vc := ValueCounts(vs);
    var top := TopCategories(vs, topN);
    ValueCountsSize(vs);
    assert top == vc;
    var p := ValueCountsFind(vs, v);
    assert top[p].0 == v;
  }

  /** Counts of at most a positive `total` give shares in (0, 100] in the same order. */
  lemma PercentagesBounded(top: seq<(string, nat)>, total: nat)
    requires total > 0
    requires forall i :: 0 <= i < |top| ==> 0 < top[i].1 <= total
    ensures forall i :: 0 <= i < |top| ==> 0.0 < Percentages(top, total)[i].1 <= 100.0
  {
    forall i | 0 <= i < |top|
      ensures 0.0 < Percentages(top, total)[i].1 <= 100.0
    {
      PercentOf(top[i].1, total);
    }
  }

  /** Each listed category has its share of the non-null values, in (0, 100], under its
      own key and in the same order. */
  lemma TopPercentages(vs: seq<string>, topN: int)
    ensures |Percentages(TopCategories(vs, topN), |vs|)| == |TopCategories(vs, topN)|
    ensures forall i :: 0 <= i < |TopCategories(vs, topN)| ==>
      Percentages(TopCategories(vs, topN), |vs|)[i].0 == TopCategories(vs, topN)[i].0
    ensures forall i :: 0 <= i < |TopCategories(vs, topN)| ==>
      0.0 < Percentages(TopCategories(vs, topN), |vs|)[i].1 <= 100.0
    ensures |vs| > 0 ==> forall i :: 0 <= i < |TopCategories(vs, topN)| ==>
      Percentages(TopCategories(vs, topN), |vs|)[i].1 == Percentage(TopCategories(vs, topN)[i].1, |vs|)
  {
    var top := TopCategories(vs, topN);
    TopLength(vs, topN);
    if |vs| > 0 {
      TopOccurrences(vs, topN);
      forall i | 0 <= i < |top|
        ensures 0 < top[i].1 <= |vs|
      {
        OccurrencesAtMost(vs, top[i].0);
      }
      PercentagesBounded(top, |vs|);
    }
  }

  /** The unique and missing counts: the null and non-null cells make up the column, the
      missing share is in [0, 100] on a sheet of that many rows (NaN without rows), and
      there are no unique values exactly when every cell is null. */
  lemma ProfileCounts(cells: seq<Option<string>>, rows: nat, topN: int)
    ensures var p := Profile(cells, rows, topN);
      && p.missingValues + |Present(cells)| == |cells|
      && p.uniqueValues <= |Present(cells)|
      && (p.uniqueValues == 0 <==> p.missingValues == |cells|)
      && (p.missingPercentage.Some? <==> rows > 0)
      && (rows > 0 && |cells| == rows ==> 0.0 <= p.missingPercentage.value <= 100.0)
  {
    var vs := Present(cells);
    var p := Profile(cells, rows, topN);
    if rows > 0 && |cells| == rows {
      PercentOf(p.missingValues, rows);
    }
    if |vs| > 0 {
      UniquesCover(vs, vs[0]);
    }
  }

  /** The dictionary entry for one column: its record, under its name. */
  function ProfileEntries(text: seq<Series<string>>, rows: nat, topN: int)
    : (es: seq<(string, Option<CategoryProfile>)>)
    ensures |es| == |text|
    ensures forall i :: 0 <= i < |text| ==> es[i] == (text[i].name, Some(Profile(text[i].cells, rows, topN)))
  {
    seq(|text|, i requires 0 <= i < |text| => (text[i].name, Some(Profile(text[i].cells, rows, topN))))
  }

  /** The categorical analysis of a sheet, or `None` when it has no text column (the
      early return that records nothing). */
  function CategoricalOf(t: Table, topN: int): Option<map<string, CategoryProfile>>
  {
    var text := TextColumns(t.columns);
    if text == [] then None else Some(Collect(ProfileEntries(text, t.rows, topN)))
  }

  /** The column loop of `analyze_categorical_data`. */
  method ComputeCategorical(t: Table, topN: int) returns (r: Option<map<string, CategoryProfile>>)
    ensures r == CategoricalOf(t, topN)
  {
    var text := TextColumns(t.columns);
    if text == [] {
      return None;
    }
    var analysis: map<string, CategoryProfile> := map[];
    var i := 0;
    while i < |text|
      invariant 0 <= i <= |text|
      invariant analysis == Collect(ProfileEntries(text, t.rows, topN)[..i])
    {
      var col := text[i];
      var valueCounts := ValueCounts(Present(col.cells));
      var topCategories := Head(valueCounts, topN);
      var totalCount := |Present(col.cells)|;
      var topCategoriesPct := Percentages(topCategories, totalCount);
      var uniqueCount := |Uniques(Present(col.cells))|;
      var missingCount := MissingCount(col.cells);
      var missingPct := if t.rows == 0 then None else Some(Percentage(missingCount, t.rows));
      CollectNext(ProfileEntries(text, t.rows, topN), i);
      analysis := analysis[col.name := CategoryProfile(uniqueCount, missingCount, missingPct, topCategories, topCategoriesPct)];
      i := i + 1;
    }
    assert ProfileEntries(text, t.rows, topN)[..|text|] == ProfileEntries(text, t.rows, topN);
    return Some(analysis);
  }

  /** There is a result exactly when the sheet has a text column, and it has one record
      per text column. */
  lemma CategoricalColumns(t: Table, topN: int)
    ensures CategoricalOf(t, topN).None? <==> forall i :: 0 <= i < |t.columns| ==> !t.columns[i].cells.Text?
    ensures CategoricalOf(t, topN).Some? ==>
      forall name :: name in CategoricalOf(t, topN).value <==> name in Names(TextColumns(t.columns))
  {
    var text := TextColumns(t.columns);
    var es := ProfileEntries(text, t.rows, topN);
    NoTextColumns(t.columns);
    if text != [] {
      forall name
        ensures name in Collect(es) <==> name in Names(text)
      {
        CollectKeys(es, name);
        if name in Names(text) {
          var i :| 0 <= i < |text| && Names(text)[i] == name;
          assert es[i].0 == name;
        }
      }
    }
  }

  /** On a well-formed sheet, each text column's record is the profile of its own cells. */
  lemma CategoricalOfColumn(t: Table, topN: int, i: nat)
    requires WellFormed(t) && i < |TextColumns(t.columns)|
    ensures CategoricalOf(t, topN).Some?
    ensures var c := TextColumns(t.columns)[i];
      c.name in CategoricalOf(t, topN).value
      && CategoricalOf(t, topN).value[c.name] == Profile(c.cells, t.rows, topN)
  {
    var text := TextColumns(t.columns);
    TextColumnsDistinct(t.columns);
    CollectDistinct(ProfileEntries(text, t.rows, topN), i);
  }
}
