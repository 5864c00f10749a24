/**
  Python dictionary literals and `dict.get`. A literal `{k1: v1, k2: v2, ...}`
  is read left to right, and a key written twice keeps the value written last.
 */
module PyDict {

  import opened Wrappers

  /** The keys of a literal's entries, in the order written. */
  function KeysOf<K, V>(entries: seq<(K, V)>): (ks: seq<K>)
    ensures |ks| == |entries|
    ensures forall i | 0 <= i < |entries| :: ks[i] == entries[i].0
  {
    seq(|entries|, i requires 0 <= i < |entries| => entries[i].0)
  }

  /** Entry `i` is the last one written with its key. */
  predicate LastWritten<K(==), V>(entries: seq<(K, V)>, i: nat)
    requires i < |entries|
  {
    forall j | i < j < |entries| :: entries[j].0 != entries[i].0
  }

  predicate DistinctKeys<K(==), V>(entries: seq<(K, V)>)
  {
    forall i, j | 0 <= i < j < |entries| :: entries[i].0 != entries[j].0
  }

  predicate DistinctValues<K, V(==)>(entries: seq<(K, V)>)
  {
    forall i, j | 0 <= i < j < |entries| :: entries[i].1 != entries[j].1
  }

  /** No two keys share a value. */
  predicate Injective<K, V(==)>(m: map<K, V>)
  {
    forall x, y | x in m && y in m && x != y :: m[x] != m[y]
  }

  /** The dictionary a literal with these entries evaluates to: the entry
      written last is in it with its value. */
  function DictOf<K, V>(entries: seq<(K, V)>): (m: map<K, V>)
    ensures |entries| > 0 ==> entries[|entries| - 1].0 in m && m[entries[|entries| - 1].0] == entries[|entries| - 1].1
    decreases |entries|
  {
    if |entries| == 0 then map[]
    else
      var last := entries[|entries| - 1];
      DictOf(entries[..|entries| - 1])[last.0 := last.1]
  }

  /** The dictionary holds exactly the keys written. */
  lemma {:induction false} DictOfKeys<K(!new), V>(entries: seq<(K, V)>)
    ensures forall k :: k in DictOf(entries) <==> k in KeysOf(entries)
    decreases |entries|
  {
    if |entries| > 0 {
      var init := entries[..|entries| - 1];
      var last := entries[|entries| - 1];
      DictOfKeys(init);
      assert DictOf(entries) == DictOf(init)[last.0 := last.1];
      assert KeysOf(entries) == KeysOf(init) + [last.0];
    }
  }

  /** Each key holds the value written last for it. */
  lemma {:induction false} DictOfValues<K(!new), V>(entries: seq<(K, V)>)
    ensures forall i | 0 <= i < |entries| && LastWritten(entries, i) ::
      entries[i].0 in DictOf(entries) && DictOf(entries)[entries[i].0] == entries[i].1
    decreases |entries|
  {
    if |entries| > 0 {
      var init := entries[..|entries| - 1];
      var last := entries[|entries| - 1];
      DictOfValues(init);
      var m := DictOf(init);
      assert DictOf(entries) == m[last.0 := last.1];
      forall i | 0 <= i < |entries| && LastWritten(entries, i)
        ensures entries[i].0 in DictOf(entries) && DictOf(entries)[entries[i].0] == entries[i].1
      {
        if i < |init| {
          assert entries[i] == init[i];
          assert entries[i].0 != last.0;
          assert LastWritten(init, i);
        }
      }
    }
  }

  /** The dictionary holds exactly the keys written, each with the value
      written last for it. */
  lemma DictOfContents<K(!new), V>(entries: seq<(K, V)>)
    ensures forall k :: k in DictOf(entries) <==> k in KeysOf(entries)
    ensures forall i | 0 <= i < |entries| && LastWritten(entries, i) :: DictOf(entries)[entries[i].0] == entries[i].1
  {
    DictOfKeys(entries);
    DictOfValues(entries);
  }

  /** With distinct keys every entry is what the dictionary holds for its key. */
  lemma DistinctLookup<K(!new), V>(entries: seq<(K, V)>)
    requires DistinctKeys(entries)
    ensures forall i | 0 <= i < |entries| :: entries[i].0 in DictOf(entries) && DictOf(entries)[entries[i].0] == entries[i].1
  {
    assert forall i | 0 <= i < |entries| :: LastWritten(entries, i);
    DictOfValues(entries);
  }

  /** Python's `d.get(k)`. */
  function Get<K, V>(m: map<K, V>, k: K): (r: Option<V>)
    ensures r.Some? <==> k in m
    ensures r.Some? ==> r.value == m[k]
  {
    if k in m then Some(m[k]) else None
  }

  /** With distinct keys every entry survives, so the dictionary has one key
      per entry. */
  lemma {:induction false} DictOfSize<K(!new), V>(entries: seq<(K, V)>)
    requires DistinctKeys(entries)
    ensures |DictOf(entries)| == |entries|
    decreases |entries|
  {
    if |entries| > 0 {
      var init := entries[..|entries| - 1];
      var last := entries[|entries| - 1];
      assert DistinctKeys(init);
      DictOfSize(init);
      DictOfContents(init);
      assert last.0 !in KeysOf(init);
      assert last.0 !in DictOf(init);
      assert DictOf(entries) == DictOf(init)[last.0 := last.1];
    }
  }

  /** Writing again a key with the value it already holds changes nothing. */
  lemma {:induction false} RewritesChangeNothing<K(!new), V>(entries: seq<(K, V)>, repeats: seq<(K, V)>)
    requires forall j | 0 <= j < |repeats| :: repeats[j].0 in DictOf(entries) && DictOf(entries)[repeats[j].0] == repeats[j].1
    ensures DictOf(entries + repeats) == DictOf(entries)
    decreases |repeats|
  {
    if |repeats| > 0 {
      var m := DictOf(entries);
      var init := repeats[..|repeats| - 1];
      var last := repeats[|repeats| - 1];
      assert last.0 in m && m[last.0] == last.1;
      assert forall j | 0 <= j < |init| :: init[j] == repeats[j];
      RewritesChangeNothing(entries, init);
      var full := entries + repeats;
      assert full[..|full| - 1] == entries + init;
      assert full[|full| - 1] == last;
      assert DictOf(full) == DictOf(entries + init)[last.0 := last.1];
      assert m[last.0 := last.1] == m;
    } else {
      assert entries + repeats == entries;
    }
  }

  /** Writing again, after entries with distinct keys, some of those very
      entries leaves the dictionary as it was. */
  lemma RepeatsChangeNothing<K(!new), V>(entries: seq<(K, V)>, repeats: seq<(K, V)>)
    requires DistinctKeys(entries)
    requires forall j | 0 <= j < |repeats| :: repeats[j] in entries
    ensures DictOf(entries + repeats) == DictOf(entries)
  {
    DictOfContents(entries);
    forall j | 0 <= j < |repeats|
      ensures repeats[j].0 in DictOf(entries) && DictOf(entries)[repeats[j].0] == repeats[j].1
    {
      var i :| 0 <= i < |entries| && entries[i] == repeats[j];
      assert LastWritten(entries, i);
      assert KeysOf(entries)[i] == repeats[j].0;
    }
    RewritesChangeNothing(entries, repeats);
  }

  /** Distinct keys carrying distinct values make an injective dictionary. */
  lemma DictOfInjective<K(!new), V>(entries: seq<(K, V)>)
    requires DistinctKeys(entries) && DistinctValues(entries)
    ensures Injective(DictOf(entries))
  {
    var m := DictOf(entries);
    DictOfContents(entries);
    forall x, y | x in m && y in m && x != y
      ensures m[x] != m[y]
    {
      var ks := KeysOf(entries);
      var i :| 0 <= i < |ks| && ks[i] == x;
      var j :| 0 <= j < |ks| && ks[j] == y;
      assert LastWritten(entries, i) && LastWritten(entries, j);
      assert i != j;
      assert entries[i].1 != entries[j].1;
    }
  }
}
