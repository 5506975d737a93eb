/** Frequency tables: `value_counts` as an ordered list of (value, count) entries, sorted
    by non-increasing count with ties kept in first-seen order, and `head(n)`. */
module Counting {

  ghost predicate Distinct<T>(d: seq<T>)
  {
    forall i, j :: 0 <= i < j < |d| ==> d[i] != d[j]
  }

  ghost predicate DistinctKeys<T>(t: seq<(T, nat)>)
  {
    forall i, j :: 0 <= i < j < |t| ==> t[i].0 != t[j].0
  }

  /** The distinct values of `xs` in first-seen order. */
  function Uniques<T(==)>(xs: seq<T>): (d: seq<T>)
    ensures Distinct(d)
    ensures |d| <= |xs|
  {
    if xs == [] then []
    else
      var d := Uniques(xs[..|xs| - 1]);
      var x := xs[|xs| - 1];
      if x in d then d else d + [x]
  }

  /** Every distinct value occurs in `xs`. */
  lemma {:induction false} UniquesOccur<T>(xs: seq<T>)
    ensures forall i :: 0 <= i < |Uniques(xs)| ==> Uniques(xs)[i] in multiset(xs)
  {
    if xs != [] {
      var init, x := xs[..|xs| - 1], xs[|xs| - 1];
      assert xs == init + [x];
      UniquesOccur(init);
    }
  }

  /** Every value of `xs` is among the distinct values. */
  lemma {:induction false} UniquesCover<T>(xs: seq<T>, x: T)
    ensures x in xs ==> x in Uniques(xs)
  {
    if xs != [] {
      var init, last := xs[..|xs| - 1], xs[|xs| - 1];
      assert xs == init + [last];
      UniquesCover(init, x);
    }
  }

  /** A value's first occurrence comes after that of every earlier value: the distinct
      values are listed in first-seen order. */
  lemma {:induction false} UniquesFirstSeen<T>(xs: seq<T>, a: nat, b: nat)
    requires a < b < |xs| && xs[b] !in xs[..b]
    ensures Before(Uniques(xs), xs[a], xs[b])
  {
    var init, x := xs[..|xs| - 1], xs[|xs| - 1];
    assert xs == init + [x];
    var d := Uniques(init);
    if b == |xs| - 1 {
      UniquesOccur(init);
      assert x !in d;
      assert xs[a] == init[a];
      UniquesCover(init, xs[a]);
      var p :| 0 <= p < |d| && d[p] == xs[a];
      assert Uniques(xs) == d + [x];
      assert (d + [x])[p] == xs[a] && (d + [x])[|d|] == xs[b];
    } else {
      assert init[..b] == xs[..b];
      assert init[a] == xs[a] && init[b] == xs[b];
      UniquesFirstSeen(init, a, b);
      var p, q :| 0 <= p < q < |d| && d[p] == xs[a] && d[q] == xs[b];
      var u := Uniques(xs);
      assert u == d || u == d + [x];
      assert u[p] == xs[a] && u[q] == xs[b];
    }
  }

  /** Each value of `d` paired with its multiplicity in `m`. */
  function Counted<T>(d: seq<T>, m: multiset<T>): (t: seq<(T, nat)>)
    ensures |t| == |d|
    ensures forall i :: 0 <= i < |d| ==> t[i] == (d[i], m[d[i]])
  {
    if d == [] then [] else [(d[0], m[d[0]])] + Counted(d[1..], m)
  }

  /** `value_counts` before sorting: the distinct values in first-seen order, each with
      its number of occurrences. */
  function Tally<T(==)>(xs: seq<T>): seq<(T, nat)>
  {
    Counted(Uniques(xs), multiset(xs))
  }

  /** The sum of the counts. */
  function Total<T>(t: seq<(T, nat)>): nat
  {
    if t == [] then 0 else t[0].1 + Total(t[1..])
  }

  lemma {:induction false} TotalAppend<T>(d: seq<T>, m: multiset<T>, x: T)
    ensures Total(Counted(d + [x], m)) == Total(Counted(d, m)) + m[x]
  {
    if d != [] {
      assert (d + [x])[1..] == d[1..] + [x];
      TotalAppend(d[1..], m, x);
    }
  }

  lemma {:induction false} TotalAddOne<T>(d: seq<T>, m: multiset<T>, x: T)
    requires Distinct(d)
    ensures Total(Counted(d, m + multiset{x})) == Total(Counted(d, m)) + if x in d then 1 else 0
  {
    if d != [] {
      assert d == [d[0]] + d[1..];
      assert d[0] !in d[1..];
      TotalAddOne(d[1..], m, x);
    }
  }

  lemma {:induction false} TallyTotal<T>(xs: seq<T>)
    ensures Total(Tally(xs)) == |xs|
  {
    if xs != [] {
      var init, x := xs[..|xs| - 1], xs[|xs| - 1];
      assert xs == init + [x];
      var d := Uniques(init);
      TallyTotal(init);
      TotalAddOne(d, multiset(init), x);
      UniquesCover(init, x);
      if x !in d {
        TotalAppend(d, multiset(xs), x);
        assert multiset(init)[x] == 0;
      }
    }
  }

  ghost predicate SortedByCount<T>(t: seq<(T, nat)>)
  {
    forall i, j :: 0 <= i < j < |t| ==> t[i].1 >= t[j].1
  }

  /** Inserts `e` before the first entry whose count is not larger than its own. */
  function InsertByCount<T>(e: (T, nat), s: seq<(T, nat)>): (r: seq<(T, nat)>)
    requires SortedByCount(s)
    ensures |r| == |s| + 1
    ensures r[0] == if s == [] || e.1 >= s[0].1 then e else s[0]
    ensures SortedByCount(r)
    ensures multiset(r) == multiset(s) + multiset{e}
  {
    if s == [] || e.1 >= s[0].1 then [e] + s
    else
      assert s == [s[0]] + s[1..];
      [s[0]] + InsertByCount(e, s[1..])
  }

  /** A stable sort by non-increasing count (insertion sort). */
  function SortByCount<T>(s: seq<(T, nat)>): (r: seq<(T, nat)>)
    ensures |r| == |s|
    ensures SortedByCount(r)
    ensures multiset(r) == multiset(s)
  {
    if s == [] then []
    else
      assert s == [s[0]] + s[1..];
      InsertByCount(s[0], SortByCount(s[1..]))
  }

  /** `value_counts()`: distinct values with their counts, most frequent first. */
  function ValueCounts<T(==)>(xs: seq<T>): seq<(T, nat)>
  {
    SortByCount(Tally(xs))
  }

  lemma {:induction false} InsertByCountTotal<T>(e: (T, nat), s: seq<(T, nat)>)
    requires SortedByCount(s)
    ensures Total(InsertByCount(e, s)) == Total(s) + e.1
  {
    if s != [] && e.1 < s[0].1 {
      InsertByCountTotal(e, s[1..]);
    }
  }

  lemma {:induction false} SortByCountTotal<T>(s: seq<(T, nat)>)
    ensures Total(SortByCount(s)) == Total(s)
  {
    if s != [] {
      SortByCountTotal(s[1..]);
      InsertByCountTotal(s[0], SortByCount(s[1..]));
    }
  }

  lemma {:induction false} InsertByCountDistinct<T>(e: (T, nat), s: seq<(T, nat)>)
    requires SortedByCount(s) && DistinctKeys(s)
    requires forall j :: 0 <= j < |s| ==> s[j].0 != e.0
    ensures DistinctKeys(InsertByCount(e, s))
  {
    if s != [] && e.1 < s[0].1 {
      var rest := InsertByCount(e, s[1..]);
      InsertByCountDistinct(e, s[1..]);
      forall k | 0 <= k < |rest|
        ensures rest[k].0 != s[0].0
      {
        assert rest[k] in multiset(rest);
        if rest[k] != e {
          assert rest[k] in s[1..];
        }
      }
      assert InsertByCount(e, s) == [s[0]] + rest;
    }
  }

  lemma {:induction false} SortByCountDistinct<T>(s: seq<(T, nat)>)
    requires DistinctKeys(s)
    ensures DistinctKeys(SortByCount(s))
  {
    if s != [] {
      var rest := SortByCount(s[1..]);
      SortByCountDistinct(s[1..]);
      forall k | 0 <= k < |rest|
        ensures rest[k].0 != s[0].0
      {
        assert rest[k] in multiset(rest);
        assert rest[k] in s[1..];
      }
      InsertByCountDistinct(s[0], rest);
    }
  }

  /** One entry per distinct value, and the counts add up to the number of values. */
  lemma ValueCountsSize<T>(xs: seq<T>)
    ensures |ValueCounts(xs)| == |Uniques(xs)| <= |xs|
    ensures Total(ValueCounts(xs)) == |xs|
  {
    TallyTotal(xs);
    SortByCountTotal(Tally(xs));
  }

  /** The entries have distinct values and come most frequent first. */
  lemma ValueCountsOrder<T>(xs: seq<T>)
    ensures SortedByCount(ValueCounts(xs))
    ensures DistinctKeys(ValueCounts(xs))
  {
    var d, t := Uniques(xs), Tally(xs);
    assert DistinctKeys(t) by {
      assert forall i :: 0 <= i < |t| ==> t[i].0 == d[i];
    }
    SortByCountDistinct(t);
  }

  /** The entries with count `c`, in order. */
  function WithCount<T>(t: seq<(T, nat)>, c: nat): seq<(T, nat)>
  {
    if t == [] then [] else (if t[0].1 == c then [t[0]] else []) + WithCount(t[1..], c)
  }

  /** Every entry of count `c` is among the entries of that count. */
  lemma {:induction false} WithCountHas<T>(t: seq<(T, nat)>, c: nat, k: nat)
    requires k < |t| && t[k].1 == c
    ensures t[k] in WithCount(t, c)
  {
    if k > 0 {
      WithCountHas(t[1..], c, k - 1);
    }
  }

  /** Every entry of count `c` is an entry of `t`. */
  lemma {:induction false} WithCountIn<T>(t: seq<(T, nat)>, c: nat, k: nat)
    requires k < |WithCount(t, c)|
    ensures WithCount(t, c)[k] in t
  {
    var h := if t[0].1 == c then [t[0]] else [];
    if k >= |h| {
      WithCountIn(t[1..], c, k - |h|);
      assert WithCount(t, c)[k] == WithCount(t[1..], c)[k - |h|];
    }
  }

  /** `x` comes before `y` in `t`. */
  ghost predicate Before<E>(t: seq<E>, x: E, y: E)
  {
    exists a, b :: 0 <= a < b < |t| && t[a] == x && t[b] == y
  }

  /** Inserting `e` puts it ahead of every entry with its count. */
  lemma {:induction false} InsertByCountStable<T>(e: (T, nat), s: seq<(T, nat)>, c: nat)
    requires SortedByCount(s)
    ensures WithCount(InsertByCount(e, s), c) == (if e.1 == c then [e] else []) + WithCount(s, c)
  {
    if s == [] || e.1 >= s[0].1 {
      WithCountCons(e, s, c);
    } else {
      var rest := InsertByCount(e, s[1..]);
      InsertByCountStable(e, s[1..], c);
      WithCountCons(s[0], rest, c);
      WithCountCons(s[0], s[1..], c);
      assert s == [s[0]] + s[1..];
    }
  }

  lemma WithCountCons<T>(x: (T, nat), t: seq<(T, nat)>, c: nat)
    ensures WithCount([x] + t, c) == (if x.1 == c then [x] else []) + WithCount(t, c)
  {
    assert ([x] + t)[1..] == t;
  }

  /** Sorting by count keeps the entries of each count in their order. */
  lemma {:induction false} SortByCountStable<T>(s: seq<(T, nat)>, c: nat)
    ensures WithCount(SortByCount(s), c) == WithCount(s, c)
  {
    if s != [] {
      SortByCountStable(s[1..], c);
      InsertByCountStable(s[0], SortByCount(s[1..]), c);
    }
  }

  /** Two entries of count `c` keep their order among the entries of that count. */
  lemma {:induction false} WithCountKeepsOrder<T>(t: seq<(T, nat)>, c: nat, a: nat, b: nat)
    requires a < b < |t| && t[a].1 == c && t[b].1 == c
    ensures Before(WithCount(t, c), t[a], t[b])
  {
    var h := if t[0].1 == c then [t[0]] else [];
    var w := WithCount(t[1..], c);
    assert WithCount(t, c) == h + w;
    assert t[b] == t[1..][b - 1];
    if a > 0 {
      assert t[a] == t[1..][a - 1];
      WithCountKeepsOrder(t[1..], c, a - 1, b - 1);
      var p, q :| 0 <= p < q < |w| && w[p] == t[a] && w[q] == t[b];
      assert (h + w)[p + |h|] == t[a] && (h + w)[q + |h|] == t[b];
    } else {
      WithCountHas(t[1..], c, b - 1);
      var q :| 0 <= q < |w| && w[q] == t[b];
      assert (h + w)[0] == t[a] && (h + w)[q + 1] == t[b];
    }
  }

  /** Entries in order among those of count `c` are in that order in `t`. */
  lemma {:induction false} WithCountFromOrder<T>(t: seq<(T, nat)>, c: nat, p: nat, q: nat)
    requires p < q < |WithCount(t, c)|
    ensures Before(t, WithCount(t, c)[p], WithCount(t, c)[q])
  {
    var h := if t[0].1 == c then [t[0]] else [];
    var w := WithCount(t[1..], c);
    var all := WithCount(t, c);
    assert all == h + w;
    if |h| == 1 && p == 0 {
      assert all[q] == w[q - 1];
      WithCountIn(t[1..], c, q - 1);
      var b :| 0 <= b < |t[1..]| && t[1..][b] == all[q];
      assert t[0] == all[p] && t[b + 1] == all[q];
    } else {
      assert all[p] == w[p - |h|] && all[q] == w[q - |h|];
      WithCountFromOrder(t[1..], c, p - |h|, q - |h|);
      var a, b :| 0 <= a < b < |t[1..]| && t[1..][a] == w[p - |h|] && t[1..][b] == w[q - |h|];
      assert t[a + 1] == all[p] && t[b + 1] == all[q];
    }
  }

  /** Values with equal counts are listed in the order they first occur in `xs`. */
  lemma ValueCountsTieOrder<T>(xs: seq<T>, i: nat, j: nat)
    requires i < j < |ValueCounts(xs)| && ValueCounts(xs)[i].1 == ValueCounts(xs)[j].1
    ensures Before(Uniques(xs), ValueCounts(xs)[i].0, ValueCounts(xs)[j].0)
  {
    var d, t, vc := Uniques(xs), Tally(xs), ValueCounts(xs);
    var c := vc[i].1;
    WithCountKeepsOrder(vc, c, i, j);
    SortByCountStable(t, c);
    var w := WithCount(t, c);
    var p, q :| 0 <= p < q < |w| && w[p] == vc[i] && w[q] == vc[j];
    WithCountFromOrder(t, c, p, q);
    var a, b :| 0 <= a < b < |t| && t[a] == vc[i] && t[b] == vc[j];
    assert d[a] == vc[i].0 && d[b] == vc[j].0;
  }

  /** Each entry holds a value of `xs` with its number of occurrences. */
  lemma ValueCountsCount<T>(xs: seq<T>)
    ensures forall i :: 0 <= i < |ValueCounts(xs)| ==> ValueCounts(xs)[i].1 == multiset(xs)[ValueCounts(xs)[i].0] > 0
  {
    var d, t, vc := Uniques(xs), Tally(xs), ValueCounts(xs);
    UniquesOccur(xs);
    forall i | 0 <= i < |vc|
      ensures vc[i].1 == multiset(xs)[vc[i].0] > 0
    {
      assert vc[i] in multiset(vc);
      assert vc[i] in t;
      var j :| 0 <= j < |t| && t[j] == vc[i];
      assert d[j] in multiset(xs);
    }
  }

  /** Every value of `xs` has an entry with its number of occurrences. */
  lemma ValueCountsFind<T>(xs: seq<T>, x: T) returns (p: nat)
    requires x in xs
    ensures p < |ValueCounts(xs)| && ValueCounts(xs)[p] == (x, multiset(xs)[x])
  {
    var d, t, vc := Uniques(xs), Tally(xs), ValueCounts(xs);
    UniquesCover(xs, x);
    var j :| 0 <= j < |d| && d[j] == x;
    assert t[j] == (x, multiset(xs)[x]);
    assert t[j] in multiset(t);
    assert t[j] in multiset(vc);
    p :| 0 <= p < |vc| && vc[p] == t[j];
  }

  /** No value occurs more often than there are values. */
  lemma {:induction false} OccurrencesAtMost<T>(xs: seq<T>, x: T)
    ensures multiset(xs)[x] <= |xs|
  {
    if xs != [] {
      assert xs == [xs[0]] + xs[1..];
      OccurrencesAtMost(xs[1..], x);
    }
  }

  /** A prefix counts no more than the whole. */
  lemma {:induction false} TotalPrefix<T>(s: seq<(T, nat)>, n: nat)
    requires n <= |s|
    ensures Total(s[..n]) <= Total(s)
  {
    if n > 0 {
      assert s[..n][1..] == s[1..][..n - 1];
      TotalPrefix(s[1..], n - 1);
    }
  }

  /** `head(n)`: the first `n` entries, or for a negative `n` all but the last `-n`. */
  function Head<E>(s: seq<E>, n: int): (r: seq<E>)
    ensures |r| <= |s| && r == s[..|r|]
    ensures n >= 0 ==> |r| == if n <= |s| then n else |s|
    ensures n < 0 ==> |r| == if |s| + n >= 0 then |s| + n else 0
  {
    if n >= 0 then (if n <= |s| then s[..n] else s)
    else (if |s| + n >= 0 then s[..|s| + n] else [])
  }
}
