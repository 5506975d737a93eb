/** Building a dictionary by assigning `d[key] = value` for a sequence of candidate
    entries, skipping the ones without a value; a later assignment to the same key
    replaces an earlier one, as in Python. */
module Dicts {

  import opened Tables

  function Collect<K(==), V>(es: seq<(K, Option<V>)>): map<K, V>
  {
    if es == [] then map[]
    else
      var m := Collect(es[..|es| - 1]);
      var e := es[|es| - 1];
      if e.1.Some? then m[e.0 := e.1.value] else m
  }

  /** One more candidate entry is one more conditional assignment. */
  lemma CollectSnoc<K, V>(es: seq<(K, Option<V>)>, e: (K, Option<V>))
    ensures Collect(es + [e]) == if e.1.Some? then Collect(es)[e.0 := e.1.value] else Collect(es)
  {
    assert (es + [e])[..|es|] == es;
  }

  /** Extending a prefix of the entries by one entry is one more conditional assignment. */
  lemma CollectNext<K, V>(es: seq<(K, Option<V>)>, i: nat)
    requires i < |es|
    ensures Collect(es[..i + 1]) == if es[i].1.Some? then Collect(es[..i])[es[i].0 := es[i].1.value] else Collect(es[..i])
  {
    assert es[..i + 1] == es[..i] + [es[i]];
    CollectSnoc(es[..i], es[i]);
  }

  /** The keys are exactly those of the entries that carry a value. */
  lemma {:induction false} CollectKeys<K, V>(es: seq<(K, Option<V>)>, k: K)
    ensures k in Collect(es) <==> exists i :: 0 <= i < |es| && es[i].0 == k && es[i].1.Some?
  {
    if es != [] {
      var init := es[..|es| - 1];
      CollectKeys(init, k);
      assert forall i :: 0 <= i < |init| ==> init[i] == es[i];
    }
  }

  /** Each key holds the value of the last entry that assigned it. */
  lemma {:induction false} CollectLastWins<K, V>(es: seq<(K, Option<V>)>, i: nat)
    requires i < |es| && es[i].1.Some?
    requires forall j :: i < j < |es| ==> es[j].0 != es[i].0 || es[j].1.None?
    ensures es[i].0 in Collect(es) && Collect(es)[es[i].0] == es[i].1.value
  {
    var init := es[..|es| - 1];
    if i < |es| - 1 {
      assert forall j :: 0 <= j < |init| ==> init[j] == es[j];
      CollectLastWins(init, i);
    }
  }

  /** Every stored value is the value of an entry with that key. */
  lemma {:induction false} CollectValues<K, V>(es: seq<(K, Option<V>)>, k: K)
    requires k in Collect(es)
    ensures exists i :: 0 <= i < |es| && es[i].0 == k && es[i].1 == Some(Collect(es)[k])
  {
    var init := es[..|es| - 1];
    var e := es[|es| - 1];
    if !(e.1.Some? && e.0 == k) {
      CollectValues(init, k);
      var i :| 0 <= i < |init| && init[i].0 == k && init[i].1 == Some(Collect(init)[k]);
      assert es[i] == init[i];
    }
  }

  ghost predicate DistinctFirsts<K, V>(es: seq<(K, Option<V>)>)
  {
    forall i, j :: 0 <= i < j < |es| ==> es[i].0 != es[j].0
  }

  /** With distinct keys, every entry that carries a value is found under its key. */
  lemma CollectDistinct<K, V>(es: seq<(K, Option<V>)>, i: nat)
    requires DistinctFirsts(es) && i < |es| && es[i].1.Some?
    ensures es[i].0 in Collect(es) && Collect(es)[es[i].0] == es[i].1.value
  {
    CollectLastWins(es, i);
  }
}
