/** The in-memory table every analysis pass reads: named columns, each with the type the
    loader gave it, holding cells that may be null. */
module Tables {

  datatype Option<+T> = None | Some(value: T)

  /** The cells of one column, by the column's loaded type. A null cell is `None`.
      Timestamps are whole day numbers; booleans belong to neither the numeric nor the
      text selection. pandas loads a boolean column only when it has no blank cell, so
      boolean cells are never null. */
  datatype Cells =
    | Numeric(nums: seq<Option<real>>)
    | Text(texts: seq<Option<string>>)
    | Timestamps(days: seq<Option<int>>)
    | Flags(flags: seq<bool>)

  datatype Column = Column(name: string, cells: Cells)

  /** A sheet: its row count and its columns in sheet order. */
  datatype Table = Table(rows: nat, columns: seq<Column>)

  /** One column of a single element type, as the passes see it after selecting by type. */
  datatype Series<T> = Series(name: string, cells: seq<Option<T>>)

  function Length(c: Cells): nat
  {
    match c
    case Numeric(s) => |s|
    case Text(s) => |s|
    case Timestamps(s) => |s|
    case Flags(s) => |s|
  }

  /** The cell in row `i` is null. */
  predicate IsNull(c: Cells, i: nat)
    requires i < Length(c)
  {
    match c
    case Numeric(s) => s[i].None?
    case Text(s) => s[i].None?
    case Timestamps(s) => s[i].None?
    case Flags(_) => false
  }

  /** Every column has one cell per row and column names are unique. */
  ghost predicate WellFormed(t: Table)
  {
    && (forall i :: 0 <= i < |t.columns| ==> Length(t.columns[i].cells) == t.rows)
    && (forall i, j :: 0 <= i < j < |t.columns| ==> t.columns[i].name != t.columns[j].name)
  }

  /** The non-null values of a column in row order (`dropna`). */
  function Present<T>(s: seq<Option<T>>): (r: seq<T>)
    ensures |r| <= |s|
  {
    if s == [] then [] else (if s[0].Some? then [s[0].value] else []) + Present(s[1..])
  }

  /** Every non-null value comes from a cell. */
  lemma {:induction false} PresentFromCells<T>(s: seq<Option<T>>)
    ensures forall i :: 0 <= i < |Present(s)| ==> Some(Present(s)[i]) in s
  {
    if s != [] {
      PresentFromCells(s[1..]);
      var head := if s[0].Some? then [s[0].value] else [];
      forall i | 0 <= i < |Present(s)|
        ensures Some(Present(s)[i]) in s
      {
        if i >= |head| {
          assert Present(s)[i] == Present(s[1..])[i - |head|];
          var k :| 0 <= k < |s[1..]| && s[1..][k] == Some(Present(s)[i]);
          assert s[k + 1] == s[1..][k];
        }
      }
    }
  }

  /** The value of every non-null cell is among the non-null values. */
  lemma {:induction false} PresentHasCell<T>(s: seq<Option<T>>, i: nat)
    requires i < |s| && s[i].Some?
    ensures s[i].value in Present(s)
  {
    if i > 0 {
      PresentHasCell(s[1..], i - 1);
      assert s[1..][i - 1] == s[i];
    }
  }

  /** `dropna` of a column split in two is that of each part, in order: row order is kept. */
  lemma {:induction false} PresentAppend<T>(a: seq<Option<T>>, b: seq<Option<T>>)
    ensures Present(a + b) == Present(a) + Present(b)
  {
    if a == [] {
      assert a + b == b;
    } else {
      assert (a + b)[0] == a[0];
      assert (a + b)[1..] == a[1..] + b;
      PresentAppend(a[1..], b);
    }
  }

  /** Each value is kept as often as it occurs in a non-null cell. */
  lemma {:induction false} PresentCounts<T>(s: seq<Option<T>>, v: T)
    ensures multiset(Present(s))[v] == multiset(s)[Some(v)]
  {
    if s != [] {
      assert s == [s[0]] + s[1..];
      PresentCounts(s[1..], v);
    }
  }

  /** The number of null cells (`isnull().sum()`). */
  function MissingCount<T>(s: seq<Option<T>>): (n: nat)
    ensures n + |Present(s)| == |s|
    ensures n == 0 <==> forall i :: 0 <= i < |s| ==> s[i].Some?
  {
    if s == [] then 0
    else
      assert forall i :: 1 <= i < |s| ==> s[i] == s[1..][i - 1];
      (if s[0].None? then 1 else 0) + MissingCount(s[1..])
  }

  /** The number of null cells of a column. */
  function NullCount(c: Cells): nat
  {
    match c
    case Numeric(s) => MissingCount(s)
    case Text(s) => MissingCount(s)
    case Timestamps(s) => MissingCount(s)
    case Flags(_) => 0
  }

  /** A `Some` cell stays `Some` wherever `b` has a value; so `b` has no more nulls. */
  lemma {:induction false} MissingCountAtMost<A, B>(a: seq<Option<A>>, b: seq<Option<B>>)
    requires |a| == |b|
    requires forall i :: 0 <= i < |a| && a[i].None? ==> b[i].None?
    ensures MissingCount(a) <= MissingCount(b)
  {
    if a != [] {
      MissingCountAtMost(a[1..], b[1..]);
    }
  }

  /** `select_dtypes(include=[np.number])`: the numeric columns, in sheet order. */
  function NumericColumns(cols: seq<Column>): (r: seq<Series<real>>)
    ensures |r| <= |cols|
    ensures forall s :: s in r <==> Column(s.name, Numeric(s.cells)) in cols
  {
    if cols == [] then []
    else
      assert forall c :: c in cols <==> c == cols[0] || c in cols[1..];
      (if cols[0].cells.Numeric? then [Series(cols[0].name, cols[0].cells.nums)] else [])
      + NumericColumns(cols[1..])
  }

  /** `select_dtypes(include=["object", "string", "category"])`: the text columns, in sheet
      order. */
  function TextColumns(cols: seq<Column>): (r: seq<Series<string>>)
    ensures |r| <= |cols|
    ensures forall s :: s in r <==> Column(s.name, Text(s.cells)) in cols
  {
    if cols == [] then []
    else
      assert forall c :: c in cols <==> c == cols[0] || c in cols[1..];
      (if cols[0].cells.Text? then [Series(cols[0].name, cols[0].cells.texts)] else [])
      + TextColumns(cols[1..])
  }

  /** The numeric columns of a sheet split in two are those of each part, in order: the
      selection keeps sheet order. */
  lemma {:induction false} NumericColumnsAppend(a: seq<Column>, b: seq<Column>)
    ensures NumericColumns(a + b) == NumericColumns(a) + NumericColumns(b)
  {
    if a == [] {
      assert a + b == b;
    } else {
      assert (a + b)[0] == a[0];
      assert (a + b)[1..] == a[1..] + b;
      NumericColumnsAppend(a[1..], b);
    }
  }

  /** The text columns of a sheet split in two are those of each part, in order. */
  lemma {:induction false} TextColumnsAppend(a: seq<Column>, b: seq<Column>)
    ensures TextColumns(a + b) == TextColumns(a) + TextColumns(b)
  {
    if a == [] {
      assert a + b == b;
    } else {
      assert (a + b)[0] == a[0];
      assert (a + b)[1..] == a[1..] + b;
      TextColumnsAppend(a[1..], b);
    }
  }

  lemma {:induction false} NoNumericColumns(cols: seq<Column>)
    ensures NumericColumns(cols) == [] <==> forall i :: 0 <= i < |cols| ==> !cols[i].cells.Numeric?
  {
    if cols != [] {
      NoNumericColumns(cols[1..]);
      assert forall i :: 1 <= i < |cols| ==> cols[i] == cols[1..][i - 1];
    }
  }

  lemma {:induction false} NoTextColumns(cols: seq<Column>)
    ensures TextColumns(cols) == [] <==> forall i :: 0 <= i < |cols| ==> !cols[i].cells.Text?
  {
    if cols != [] {
      NoTextColumns(cols[1..]);
      assert forall i :: 1 <= i < |cols| ==> cols[i] == cols[1..][i - 1];
    }
  }

  /** Selecting the numeric columns keeps column names unique. */
  lemma {:induction false} NumericColumnsDistinct(cols: seq<Column>)
    requires forall i, j :: 0 <= i < j < |cols| ==> cols[i].name != cols[j].name
    ensures forall i, j :: 0 <= i < j < |NumericColumns(cols)| ==>
      NumericColumns(cols)[i].name != NumericColumns(cols)[j].name
  {
    if cols != [] {
      NumericColumnsDistinct(cols[1..]);
      var rest := NumericColumns(cols[1..]);
      forall k | 0 <= k < |rest|
        ensures rest[k].name != cols[0].name
      {
        assert rest[k] in rest;
        assert Column(rest[k].name, Numeric(rest[k].cells)) in cols[1..];
      }
    }
  }

  /** Selecting the text columns keeps column names unique. */
  lemma {:induction false} TextColumnsDistinct(cols: seq<Column>)
    requires forall i, j :: 0 <= i < j < |cols| ==> cols[i].name != cols[j].name
    ensures forall i, j :: 0 <= i < j < |TextColumns(cols)| ==>
      TextColumns(cols)[i].name != TextColumns(cols)[j].name
  {
    if cols != [] {
      TextColumnsDistinct(cols[1..]);
      var rest := TextColumns(cols[1..]);
      forall k | 0 <= k < |rest|
        ensures rest[k].name != cols[0].name
      {
        assert rest[k] in rest;
        assert Column(rest[k].name, Text(rest[k].cells)) in cols[1..];
      }
    }
  }

  /** The column names of a selection, in order. */
  function Names<T>(cols: seq<Series<T>>): (r: seq<string>)
    ensures |r| == |cols| && forall i :: 0 <= i < |cols| ==> r[i] == cols[i].name
  {
    seq(|cols|, i requires 0 <= i < |cols| => cols[i].name)
  }
}
