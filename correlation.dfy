/** `find_correlations`: the pairs of numeric columns whose Pearson correlation reaches
    the threshold in absolute value. */
module Correlation {

  import opened Tables
  import opened RealArith

  /** Pearson correlation of two columns over the rows where both are non-null, as
      pandas `corr()` computes it; `None` stands for NaN (too few pairs, or a constant
      column). It is a parameter of the model. */
  type Pearson = (seq<Option<real>>, seq<Option<real>>) -> Option<real>

  /** The dictionary key of a pair, `f"{col1} - {col2}"`. */
  function PairKey(a: string, b: string): string
  {
    a + " - " + b
  }

  /** `abs(correlation) >= threshold`; NaN compares false. */
  predicate Reported(r: Option<real>, threshold: real)
  {
    r.Some? && Abs(r.value) >= threshold
  }

  /** One step of the nested loop: the pair of columns `a` and `b` is assigned in `m` when
      its correlation is reported. */
  function Visit(num: seq<Series<real>>, m: map<string, real>, a: nat, b: nat, pearson: Pearson, threshold: real)
    : map<string, real>
    requires a < |num| && b < |num|
  {
    var r := pearson(num[a].cells, num[b].cells);
    if Reported(r, threshold) then m[PairKey(num[a].name, num[b].name) := r.value] else m
  }

  /** The dictionary after row `i` of the nested loop has visited `j` in
      `range(i + 1, stop)`, starting from `m`. */
  function RowMap(num: seq<Series<real>>, m: map<string, real>, i: nat, stop: nat, pearson: Pearson, threshold: real)
    : map<string, real>
    requires i < |num| && stop <= |num|
  {
    if stop <= i + 1 then m
    else Visit(num, RowMap(num, m, i, stop - 1, pearson, threshold), i, stop - 1, pearson, threshold)
  }

  /** The dictionary after the first `i` rounds of the outer loop. */
  function LoopMap(num: seq<Series<real>>, i: nat, pearson: Pearson, threshold: real): map<string, real>
    requires i <= |num|
  {
    if i == 0 then map[]
    else RowMap(num, LoopMap(num, i - 1, pearson, threshold), i - 1, |num|, pearson, threshold)
  }

  /** The pair `a < b` of columns has key `key` and a reported correlation. */
  ghost predicate ReportedPair(num: seq<Series<real>>, a: nat, b: nat, key: string, pearson: Pearson, threshold: real)
  {
    a < b < |num| && PairKey(num[a].name, num[b].name) == key
    && Reported(pearson(num[a].cells, num[b].cells), threshold)
  }

  /** The pair `a < b` of columns has key `key` and correlation `v`, reported. */
  ghost predicate ReportedAs(num: seq<Series<real>>, a: nat, b: nat, key: string, v: real, pearson: Pearson, threshold: real)
  {
    a < b < |num| && PairKey(num[a].name, num[b].name) == key
    && pearson(num[a].cells, num[b].cells) == Some(v) && Abs(v) >= threshold
  }

  /** A row adds exactly the keys of its reported pairs. */
  lemma {:induction false} RowMapKeys(num: seq<Series<real>>, m: map<string, real>, i: nat, stop: nat,
                                      pearson: Pearson, threshold: real, key: string)
    requires i < |num| && stop <= |num|
    ensures key in RowMap(num, m, i, stop, pearson, threshold) <==>
      key in m || exists b: nat :: i < b < stop && ReportedPair(num, i, b, key, pearson, threshold)
  {
    if stop > i + 1 {
      RowMapKeys(num, m, i, stop - 1, pearson, threshold, key);
      if Reported(pearson(num[i].cells, num[stop - 1].cells), threshold)
        && PairKey(num[i].name, num[stop - 1].name) == key {
        assert ReportedPair(num, i, stop - 1, key, pearson, threshold);
      }
      if exists b: nat :: i < b < stop && ReportedPair(num, i, b, key, pearson, threshold) {
        var b: nat :| i < b < stop && ReportedPair(num, i, b, key, pearson, threshold);
        if b < stop - 1 {
          assert exists b: nat :: i < b < stop - 1 && ReportedPair(num, i, b, key, pearson, threshold);
        }
      }
    }
  }

  /** The first `i` rounds assign exactly the keys of the reported pairs `a < b` with
      `a < i`. */
  lemma {:induction false} LoopMapKeys(num: seq<Series<real>>, i: nat, pearson: Pearson, threshold: real, key: string)
    requires i <= |num|
    ensures key in LoopMap(num, i, pearson, threshold) <==>
      exists a: nat, b: nat :: a < i && ReportedPair(num, a, b, key, pearson, threshold)
  {
    if i > 0 {
      LoopMapKeys(num, i - 1, pearson, threshold, key);
      RowMapKeys(num, LoopMap(num, i - 1, pearson, threshold), i - 1, |num|, pearson, threshold, key);
      if exists a: nat, b: nat :: a < i && ReportedPair(num, a, b, key, pearson, threshold) {
        var a: nat, b: nat :| a < i && ReportedPair(num, a, b, key, pearson, threshold);
        if a < i - 1 {
          assert exists a: nat, b: nat :: a < i - 1 && ReportedPair(num, a, b, key, pearson, threshold);
        }
      }
    }
  }

  /** Every value a row holds comes from `m` or from one of its reported pairs. */
  lemma {:induction false} RowMapValues(num: seq<Series<real>>, m: map<string, real>, i: nat, stop: nat,
                                        pearson: Pearson, threshold: real, key: string)
    requires i < |num| && stop <= |num|
    requires key in RowMap(num, m, i, stop, pearson, threshold)
    ensures (key in m && RowMap(num, m, i, stop, pearson, threshold)[key] == m[key])
      || exists b: nat :: i < b < stop
           && ReportedAs(num, i, b, key, RowMap(num, m, i, stop, pearson, threshold)[key], pearson, threshold)
  {
    if stop > i + 1 {
      var prev := RowMap(num, m, i, stop - 1, pearson, threshold);
      var r := pearson(num[i].cells, num[stop - 1].cells);
      if !(Reported(r, threshold) && PairKey(num[i].name, num[stop - 1].name) == key) {
        RowMapValues(num, m, i, stop - 1, pearson, threshold, key);
      } else {
        assert ReportedAs(num, i, stop - 1, key, RowMap(num, m, i, stop, pearson, threshold)[key], pearson, threshold);
      }
    }
  }

  /** Every value the first `i` rounds hold is the correlation of a reported pair with that
      key. */
  lemma {:induction false} LoopMapValues(num: seq<Series<real>>, i: nat, pearson: Pearson, threshold: real, key: string)
    requires i <= |num|
    requires key in LoopMap(num, i, pearson, threshold)
    ensures exists a: nat, b: nat :: a < i && ReportedAs(num, a, b, key, LoopMap(num, i, pearson, threshold)[key], pearson, threshold)
  {
    var prev := LoopMap(num, i - 1, pearson, threshold);
    var v := LoopMap(num, i, pearson, threshold)[key];
    RowMapValues(num, prev, i - 1, |num|, pearson, threshold, key);
    if key in prev && v == prev[key] {
      LoopMapValues(num, i - 1, pearson, threshold, key);
      var a: nat, b: nat :| a < i - 1 && ReportedAs(num, a, b, key, v, pearson, threshold);
    } else {
      var b: nat :| i - 1 < b < |num| && ReportedAs(num, i - 1, b, key, v, pearson, threshold);
    }
  }

  /** The pair `(a, b)` is visited after `(a0, b0)` by the nested loop. */
  predicate VisitedAfter(a0: nat, b0: nat, a: nat, b: nat)
  {
    a0 < a || (a0 == a && b0 < b)
  }

  /** A row none of whose pairs is reported with `key` leaves that key as it was. */
  lemma {:induction false} RowMapUntouched(num: seq<Series<real>>, m: map<string, real>, i: nat, stop: nat,
                                           pearson: Pearson, threshold: real, key: string)
    requires i < |num| && stop <= |num|
    requires forall b: nat :: i < b < stop ==> !ReportedPair(num, i, b, key, pearson, threshold)
    ensures key in RowMap(num, m, i, stop, pearson, threshold) <==> key in m
    ensures key in m ==> RowMap(num, m, i, stop, pearson, threshold)[key] == m[key]
  {
    if stop > i + 1 {
      RowMapUntouched(num, m, i, stop - 1, pearson, threshold, key);
      assert !ReportedPair(num, i, stop - 1, key, pearson, threshold);
    }
  }

  /** Within a row, the last reported pair with `key` sets its value. */
  lemma {:induction false} RowMapLast(num: seq<Series<real>>, m: map<string, real>, i: nat, stop: nat,
                                      pearson: Pearson, threshold: real, key: string, b: nat)
    requires i < |num| && stop <= |num|
    requires b < stop && ReportedPair(num, i, b, key, pearson, threshold)
    requires forall b2: nat :: b < b2 < stop ==> !ReportedPair(num, i, b2, key, pearson, threshold)
    ensures key in RowMap(num, m, i, stop, pearson, threshold)
    ensures RowMap(num, m, i, stop, pearson, threshold)[key] == pearson(num[i].cells, num[b].cells).value
  {
    if b < stop - 1 {
      RowMapLast(num, m, i, stop - 1, pearson, threshold, key, b);
      assert !ReportedPair(num, i, stop - 1, key, pearson, threshold);
    }
  }

  /** After the first `i` rounds, the last reported pair with `key` among them sets its
      value. */
  lemma {:induction false} LoopMapLast(num: seq<Series<real>>, i: nat, pearson: Pearson, threshold: real,
                                       key: string, a: nat, b: nat)
    requires i <= |num|
    requires a < i && ReportedPair(num, a, b, key, pearson, threshold)
    requires forall a2: nat, b2: nat :: a2 < i && ReportedPair(num, a2, b2, key, pearson, threshold) ==>
      !VisitedAfter(a, b, a2, b2)
    ensures key in LoopMap(num, i, pearson, threshold)
    ensures LoopMap(num, i, pearson, threshold)[key] == pearson(num[a].cells, num[b].cells).value
  {
    var row := i - 1;
    var prev := LoopMap(num, row, pearson, threshold);
    if a == row {
      forall b2: nat | b < b2 < |num|
        ensures !ReportedPair(num, row, b2, key, pearson, threshold)
      {
        assert VisitedAfter(a, b, row, b2);
      }
      RowMapLast(num, prev, row, |num|, pearson, threshold, key, b);
    } else {
      LoopMapLast(num, row, pearson, threshold, key, a, b);
      forall b2: nat | row < b2 < |num|
        ensures !ReportedPair(num, row, b2, key, pearson, threshold)
      {
        assert VisitedAfter(a, b, row, b2);
      }
      RowMapUntouched(num, prev, row, |num|, pearson, threshold, key);
    }
  }

  /** The reported correlations of a sheet, or `None` when it has fewer than two numeric
      columns (the early return that records nothing). */
  function CorrelationsOf(t: Table, pearson: Pearson, threshold: real): Option<map<string, real>>
  {
    var num := NumericColumns(t.columns);
    if |num| < 2 then None
    else Some(LoopMap(num, |num|, pearson, threshold))
  }

  /** The nested loop of `find_correlations`. */
  method ComputeCorrelations(t: Table, pearson: Pearson, threshold: real)
    returns (r: Option<map<string, real>>)
    ensures r == CorrelationsOf(t, pearson, threshold)
  {
    var num := NumericColumns(t.columns);
    var n := |num|;
    if n < 2 {
      return None;
    }
    var high: map<string, real> := map[];
    var i := 0;
    while i < n
      invariant 0 <= i <= n
      invariant high == LoopMap(num, i, pearson, threshold)
    {
      var j := i + 1;
      while j < n
        invariant i + 1 <= j <= n
        invariant high == RowMap(num, LoopMap(num, i, pearson, threshold), i, j, pearson, threshold)
      {
        var correlation := pearson(num[i].cells, num[j].cells);
        if correlation.Some? && Abs(correlation.value) >= threshold {
          high := high[PairKey(num[i].name, num[j].name) := correlation.value];
        }
        j := j + 1;
      }
      i := i + 1;
    }
    return Some(high);
  }

  /** There is a result exactly when the sheet has two numeric columns, and its keys are
      exactly the keys of the pairs `a < b` of numeric columns whose correlation is
      reported. */
  lemma CorrelationKeys(t: Table, pearson: Pearson, threshold: real, key: string)
    ensures CorrelationsOf(t, pearson, threshold).Some? <==> |NumericColumns(t.columns)| >= 2
    ensures CorrelationsOf(t, pearson, threshold).Some? ==>
      var num := NumericColumns(t.columns);
      (key in CorrelationsOf(t, pearson, threshold).value <==>
        exists a: nat, b: nat :: ReportedPair(num, a, b, key, pearson, threshold))
  {
    var num := NumericColumns(t.columns);
    LoopMapKeys(num, |num|, pearson, threshold, key);
  }

  /** Every reported value is the correlation of a pair with that key that reaches the
      threshold. */
  lemma CorrelationValues(t: Table, pearson: Pearson, threshold: real, key: string)
    requires CorrelationsOf(t, pearson, threshold).Some?
    requires key in CorrelationsOf(t, pearson, threshold).value
    ensures exists a: nat, b: nat :: ReportedAs(NumericColumns(t.columns), a, b, key,
      CorrelationsOf(t, pearson, threshold).value[key], pearson, threshold)
  {
    var num := NumericColumns(t.columns);
    LoopMapValues(num, |num|, pearson, threshold, key);
  }

  /** When two pairs of columns give the same key (`"x - y"` and `"z"` against `"x"` and
      `"y - z"`), the later assignment wins: the value under a key is the correlation of
      the last reported pair with that key in the loop's order. */
  lemma CorrelationLastWins(t: Table, pearson: Pearson, threshold: real, key: string, a: nat, b: nat)
    requires ReportedPair(NumericColumns(t.columns), a, b, key, pearson, threshold)
    requires forall a2: nat, b2: nat :: ReportedPair(NumericColumns(t.columns), a2, b2, key, pearson, threshold) ==>
      !VisitedAfter(a, b, a2, b2)
    ensures CorrelationsOf(t, pearson, threshold).Some?
    ensures key in CorrelationsOf(t, pearson, threshold).value
    ensures CorrelationsOf(t, pearson, threshold).value[key]
      == pearson(NumericColumns(t.columns)[a].cells, NumericColumns(t.columns)[b].cells).value
  {
    var num := NumericColumns(t.columns);
    LoopMapLast(num, |num|, pearson, threshold, key, a, b);
  }

  /** Raising the threshold can only remove pairs. */
  lemma ThresholdMonotone(t: Table, pearson: Pearson, low: real, high: real, key: string)
    requires low <= high
    requires CorrelationsOf(t, pearson, high).Some?
    requires key in CorrelationsOf(t, pearson, high).value
    ensures key in CorrelationsOf(t, pearson, low).value
  {
    CorrelationKeys(t, pearson, high, key);
    CorrelationKeys(t, pearson, low, key);
    var num := NumericColumns(t.columns);
    var a: nat, b: nat :| ReportedPair(num, a, b, key, pearson, high);
    assert ReportedPair(num, a, b, key, pearson, low);
  }
}
