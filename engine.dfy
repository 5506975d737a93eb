/** The `ExcelInsights` object: the loaded sheets, the default sheet, and the insights
    dictionary every analysis pass writes its result into, keyed by the kind of analysis
    and then by the sheet name. */
module Engine {

  import opened Tables
  import Correlation
  import Summary
  import Outliers
  import Categorical
  import Dates

  /** One recorded result, by the pass that produced it. */
  datatype Insight =
    | SummaryInsight(summary: Summary.SummaryInfo)
    | CorrelationInsight(correlations: map<string, real>)
    | OutlierInsight(outliers: map<string, Outliers.OutlierInfo>)
    | CategoricalInsight(categories: map<string, Categorical.CategoryProfile>)
    | DateInsight(dates: map<string, Dates.DateInfo>)

  type Insights = map<string, map<string, Insight>>

  /** The top-level keys of the insights dictionary. */
  const SummaryKey := "summary_statistics"
  const CorrelationsKey := "correlations"
  const OutliersKey := "outliers"
  const CategoricalKey := "categorical_analysis"
  const DatesKey := "date_analysis"

  /** The default arguments of the passes, used as the methods' default parameter values. */
  const DefaultCorrelationThreshold := 0.5
  const DefaultOutlierMethod := "iqr"
  const DefaultOutlierThreshold := 1.5
  const DefaultTopN := 5

  /** A sheet name counts only when it is given and not empty (Python truthiness). */
  predicate Named(sheetName: Option<string>)
  {
    sheetName.Some? && sheetName.value != ""
  }

  /** The table a pass analyses: the named sheet when it exists, otherwise the default
      sheet, `None` when nothing is loaded. */
  function SelectData(sheets: map<string, Table>, data: Option<Table>, sheetName: Option<string>): Option<Table>
  {
    if Named(sheetName) && sheetName.value in sheets then Some(sheets[sheetName.value]) else data
  }

  /** The key a result is recorded under: the sheet name when one is given, even one that
      does not exist and so was analysed on the default sheet, and "default" otherwise. */
  function RecordKey(sheetName: Option<string>): string
  {
    if Named(sheetName) then sheetName.value else "default"
  }

  /** `insights.setdefault(kind, {})[key] = v`. */
  function Recorded(insights: Insights, kind: string, key: string, v: Insight): Insights
  {
    insights[kind := (if kind in insights then insights[kind] else map[])[key := v]]
  }

  /** A recorded result can be read back. */
  lemma RecordedEntry(insights: Insights, kind: string, key: string, v: Insight)
    ensures kind in Recorded(insights, kind, key, v)
    ensures key in Recorded(insights, kind, key, v)[kind]
    ensures Recorded(insights, kind, key, v)[kind][key] == v
  {
  }

  /** Recording a result leaves every other kind of analysis as it was. */
  lemma RecordedOtherKinds(insights: Insights, kind: string, key: string, v: Insight, other: string)
    requires other != kind
    ensures other in Recorded(insights, kind, key, v) <==> other in insights
    ensures other in insights ==> Recorded(insights, kind, key, v)[other] == insights[other]
  {
  }

  /** Recording a result leaves the results of every other sheet of the same kind as
      they were. */
  lemma RecordedOtherSheets(insights: Insights, kind: string, key: string, v: Insight, otherKey: string)
    requires otherKey != key
    ensures otherKey in Recorded(insights, kind, key, v)[kind] <==> kind in insights && otherKey in insights[kind]
    ensures kind in insights && otherKey in insights[kind] ==>
      Recorded(insights, kind, key, v)[kind][otherKey] == insights[kind][otherKey]
  {
  }

  /** Running a pass again on the same sheet replaces its earlier result. */
  lemma RecordedLastWins(insights: Insights, kind: string, key: string, v1: Insight, v2: Insight)
    ensures Recorded(Recorded(insights, kind, key, v1), kind, key, v2) == Recorded(insights, kind, key, v2)
  {
    var inner := if kind in insights then insights[kind] else map[];
    assert inner[key := v1][key := v2] == inner[key := v2];
  }

  /** Results recorded under different places do not interfere, whichever comes first. */
  lemma RecordedCommute(insights: Insights, k1: string, s1: string, v1: Insight, k2: string, s2: string, v2: Insight)
    requires k1 != k2 || s1 != s2
    ensures Recorded(Recorded(insights, k1, s1, v1), k2, s2, v2) == Recorded(Recorded(insights, k2, s2, v2), k1, s1, v1)
  {
    var a := Recorded(Recorded(insights, k1, s1, v1), k2, s2, v2);
    var b := Recorded(Recorded(insights, k2, s2, v2), k1, s1, v1);
    assert a.Keys == b.Keys;
    forall k | k in a.Keys
      ensures a[k] == b[k]
    {
      if k == k1 && k == k2 {
        assert a[k].Keys == b[k].Keys;
      }
    }
  }

  /** The sheets after storing `workbook`'s first `n` sheets into `sheets`, a later sheet
      replacing an earlier one of the same name. */
  function Loaded(sheets: map<string, Table>, workbook: seq<(string, Table)>, n: nat): map<string, Table>
    requires n <= |workbook|
  {
    if n == 0 then sheets
    else Loaded(sheets, workbook, n - 1)[workbook[n - 1].0 := workbook[n - 1].1]
  }

  /** Loading keeps the sheets already there and adds every sheet of the workbook. */
  lemma {:induction false} LoadedKeys(sheets: map<string, Table>, workbook: seq<(string, Table)>, n: nat, name: string)
    requires n <= |workbook|
    ensures name in Loaded(sheets, workbook, n) <==>
      name in sheets || exists i :: 0 <= i < n && workbook[i].0 == name
  {
    if n > 0 {
      LoadedKeys(sheets, workbook, n - 1, name);
      if exists i :: 0 <= i < n && workbook[i].0 == name {
        var i :| 0 <= i < n && workbook[i].0 == name;
        if i < n - 1 {
          assert exists i :: 0 <= i < n - 1 && workbook[i].0 == name;
        }
      }
    }
  }

  /** With distinct sheet names, each sheet of the workbook is stored under its name. */
  lemma {:induction false} LoadedSheet(sheets: map<string, Table>, workbook: seq<(string, Table)>, n: nat, i: nat)
    requires i < n <= |workbook|
    requires forall a, b :: 0 <= a < b < |workbook| ==> workbook[a].0 != workbook[b].0
    ensures workbook[i].0 in Loaded(sheets, workbook, n)
    ensures Loaded(sheets, workbook, n)[workbook[i].0] == workbook[i].1
  {
    if i < n - 1 {
      LoadedSheet(sheets, workbook, n - 1, i);
    }
  }

  /** A file path counts only when it is given and not empty. */
  predicate Given(path: Option<string>)
  {
    path.Some? && path.value != ""
  }

  class ExcelInsights {
    var filePath: Option<string>
    /** The default sheet, the first of the last workbook loaded. */
    var data: Option<Table>
    var sheets: map<string, Table>
    var insights: Insights

    constructor (filePath: Option<string> := None)
      ensures this.filePath == filePath
      ensures data == None && sheets == map[] && insights == map[]
    {
      this.filePath := filePath;
      data := None;
      sheets := map[];
      insights := map[];
    }

    /** `load_excel`. The workbook is what reading the file gives: its sheets in order, or
        `None` when reading fails. A path argument replaces the stored one; without a path
        nothing is read and nothing changes. The sheets are added to those already
        loaded, and the first becomes the default. */
    method LoadExcel(workbook: Option<seq<(string, Table)>>, path: Option<string> := None) returns (ok: bool)
      modifies this
      ensures filePath == if Given(path) then path else old(filePath)
      ensures ok <==> Given(filePath) && workbook.Some?
      ensures ok ==> sheets == Loaded(old(sheets), workbook.value, |workbook.value|)
      ensures ok && workbook.value == [] ==> data == old(data)
      ensures ok && workbook.value != [] ==>
        workbook.value[0].0 in sheets && data == Some(sheets[workbook.value[0].0])
      ensures !ok ==> sheets == old(sheets) && data == old(data)
      ensures insights == old(insights)
    {
      if Given(path) {
        filePath := path;
      }
      if !Given(filePath) {
        return false;
      }
      if workbook.None? {
        return false;
      }
      var names := workbook.value;
      var i := 0;
      while i < |names|
        invariant 0 <= i <= |names|
        invariant sheets == Loaded(old(sheets), names, i)
        invariant data == old(data) && insights == old(insights) && filePath == (if Given(path) then path else old(filePath))
      {
        sheets := sheets[names[i].0 := names[i].1];
        i := i + 1;
      }
      if names != [] {
        LoadedKeys(old(sheets), names, |names|, names[0].0);
        data := Some(sheets[names[0].0]);
      }
      return true;
    }

    /** `generate_summary_statistics`: the summary, recorded unless there is no data or
        no numeric column. */
    method GenerateSummaryStatistics(sheetName: Option<string> := None) returns (r: Option<Summary.SummaryInfo>)
      modifies this
      ensures var t := SelectData(old(sheets), old(data), sheetName);
        r == if t.None? then None else Summary.SummaryOf(t.value)
      ensures insights == if r.None? then old(insights)
        else Recorded(old(insights), SummaryKey, RecordKey(sheetName), SummaryInsight(r.value))
      ensures sheets == old(sheets) && data == old(data) && filePath == old(filePath)
    {
      var t := SelectData(sheets, data, sheetName);
      if t.None? {
        return None;
      }
      r := Summary.SummaryOf(t.value);
      if r.Some? {
        insights := Recorded(insights, SummaryKey, RecordKey(sheetName), SummaryInsight(r.value));
      }
    }

    /** `find_correlations`: the reported pairs, recorded unless there is no data or there
        are fewer than two numeric columns. */
    method FindCorrelations(pearson: Correlation.Pearson, sheetName: Option<string> := None,
                            threshold: real := DefaultCorrelationThreshold)
      returns (r: Option<map<string, real>>)
      modifies this
      ensures var t := SelectData(old(sheets), old(data), sheetName);
        r == if t.None? then None else Correlation.CorrelationsOf(t.value, pearson, threshold)
      ensures insights == if r.None? then old(insights)
        else Recorded(old(insights), CorrelationsKey, RecordKey(sheetName), CorrelationInsight(r.value))
      ensures sheets == old(sheets) && data == old(data) && filePath == old(filePath)
    {
      var t := SelectData(sheets, data, sheetName);
      if t.None? {
        return None;
      }
      r := Correlation.ComputeCorrelations(t.value, pearson, threshold);
      if r.Some? {
        insights := Recorded(insights, CorrelationsKey, RecordKey(sheetName), CorrelationInsight(r.value));
      }
    }

    /** `identify_outliers`: the columns with outliers, recorded unless there is no data or
        no numeric column. */
    method IdentifyOutliers(sheetName: Option<string> := None, methodName: string := DefaultOutlierMethod,
                            threshold: real := DefaultOutlierThreshold)
      returns (r: Option<map<string, Outliers.OutlierInfo>>)
      modifies this
      ensures var t := SelectData(old(sheets), old(data), sheetName);
        r == if t.None? then None else Outliers.OutliersOf(t.value, methodName, threshold)
      ensures insights == if r.None? then old(insights)
        else Recorded(old(insights), OutliersKey, RecordKey(sheetName), OutlierInsight(r.value))
      ensures sheets == old(sheets) && data == old(data) && filePath == old(filePath)
    {
      var t := SelectData(sheets, data, sheetName);
      if t.None? {
        return None;
      }
      r := Outliers.ComputeOutliers(t.value, methodName, threshold);
      if r.Some? {
        insights := Recorded(insights, OutliersKey, RecordKey(sheetName), OutlierInsight(r.value));
      }
    }

    /** `analyze_categorical_data`: the text column records, recorded unless there is no
        data or no text column. */
    method AnalyzeCategoricalData(sheetName: Option<string> := None, topN: int := DefaultTopN)
      returns (r: Option<map<string, Categorical.CategoryProfile>>)
      modifies this
      ensures var t := SelectData(old(sheets), old(data), sheetName);
        r == if t.None? then None else Categorical.CategoricalOf(t.value, topN)
      ensures insights == if r.None? then old(insights)
        else Recorded(old(insights), CategoricalKey, RecordKey(sheetName), CategoricalInsight(r.value))
      ensures sheets == old(sheets) && data == old(data) && filePath == old(filePath)
    {
      var t := SelectData(sheets, data, sheetName);
      if t.None? {
        return None;
      }
      r := Categorical.ComputeCategorical(t.value, topN);
      if r.Some? {
        insights := Recorded(insights, CategoricalKey, RecordKey(sheetName), CategoricalInsight(r.value));
      }
    }

    /** `analyze_date_columns`: the date column records, recorded whenever there is data,
        even when no column is a date column. */
    method AnalyzeDateColumns(convert: Dates.Converter, cal: Dates.Calendar, sheetName: Option<string> := None)
      returns (r: Option<map<string, Dates.DateInfo>>)
      modifies this
      ensures var t := SelectData(old(sheets), old(data), sheetName);
        r == if t.None? then None else Some(Dates.DatesOf(t.value, convert, cal))
      ensures insights == if r.None? then old(insights)
        else Recorded(old(insights), DatesKey, RecordKey(sheetName), DateInsight(r.value))
      ensures sheets == old(sheets) && data == old(data) && filePath == old(filePath)
    {
      var t := SelectData(sheets, data, sheetName);
      if t.None? {
        return None;
      }
      var analysis := Dates.ComputeDates(t.value, convert, cal);
      r := Some(analysis);
      insights := Recorded(insights, DatesKey, RecordKey(sheetName), DateInsight(analysis));
    }
  }
}
