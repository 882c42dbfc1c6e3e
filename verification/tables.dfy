/** Keyed tables in enumeration order: the model of the `Hashtable` and
    `Dictionary` instances the source keeps. A table is a list of entries
    whose keys are distinct; `Put` is the indexer assignment (`t[k] = v`,
    overwriting in place), `Add` is `Dictionary.Add`/`Hashtable.Add`
    (which throws on a duplicate key), `Remove` is `Remove`. */
module Tables {
  import opened Wrappers

  datatype Entry<K, V> = Entry(key: K, value: V)

  type Table<K, V> = seq<Entry<K, V>>

  function Keys<K(==,!new), V>(t: Table<K, V>): set<K> {
    if |t| == 0 then {} else {t[0].key} + Keys(t[1..])
  }

  function KeyList<K(==,!new), V>(t: Table<K, V>): (r: seq<K>)
    ensures |r| == |t|
    ensures forall i :: 0 <= i < |t| ==> r[i] == t[i].key
  {
    if |t| == 0 then [] else [t[0].key] + KeyList(t[1..])
  }

  function Values<K(==,!new), V>(t: Table<K, V>): (r: seq<V>)
    ensures |r| == |t|
    ensures forall i :: 0 <= i < |t| ==> r[i] == t[i].value
  {
    if |t| == 0 then [] else [t[0].value] + Values(t[1..])
  }

  /** No key occurs twice. */
  predicate Distinct<K(==,!new), V>(t: Table<K, V>) {
    |t| == 0 || (t[0].key !in Keys(t[1..]) && Distinct(t[1..]))
  }

  /** The indexer read: the value stored under `k`, or `None` (C# `null`). */
  function Get<K(==,!new), V>(t: Table<K, V>, k: K): (r: Option<V>)
    ensures r.Some? <==> k in Keys(t)
  {
    if |t| == 0 then None
    else if t[0].key == k then Some(t[0].value)
    else Get(t[1..], k)
  }

  /** The indexer write `t[k] = v`: an existing entry keeps its position and
      takes the new value; a new key is appended. */
  function Put<K(==,!new), V>(t: Table<K, V>, k: K, v: V): (r: Table<K, V>)
    ensures Keys(r) == Keys(t) + {k}
    ensures Get(r, k) == Some(v)
    ensures forall k' :: k' != k ==> Get(r, k') == Get(t, k')
    ensures Distinct(t) ==> Distinct(r)
    ensures |r| == |t| + (if k in Keys(t) then 0 else 1)
    ensures k !in Keys(t) ==> r == t + [Entry(k, v)]
  {
    if |t| == 0 then [Entry(k, v)]
    else if t[0].key == k then [Entry(k, v)] + t[1..]
    else
      var r := [t[0]] + Put(t[1..], k, v);
      assert r[1..] == Put(t[1..], k, v);
      assert k !in Keys(t) ==> t + [Entry(k, v)] == [t[0]] + (t[1..] + [Entry(k, v)]);
      r
  }

  /** `Add`: like `Put`, but an existing key is an `ArgumentException`. */
  function Add<K(==,!new), V>(t: Table<K, V>, k: K, v: V): (r: Result<Table<K, V>>)
    ensures r.Err? <==> k in Keys(t)
    ensures r.Ok? ==> r.value == t + [Entry(k, v)] && r.value == Put(t, k, v)
  {
    if k in Keys(t) then Err(ArgumentException("An item with the same key has already been added."))
    else Ok(Put(t, k, v))
  }

  /** `Remove(k)`: the entry for `k` disappears, the others keep their order. */
  function Remove<K(==,!new), V>(t: Table<K, V>, k: K): (r: Table<K, V>)
    ensures Keys(r) == Keys(t) - {k}
    ensures Distinct(t) ==> Distinct(r)
    ensures forall k' :: k' != k ==> Get(r, k') == Get(t, k')
    ensures Distinct(t) ==> |r| == |t| - (if k in Keys(t) then 1 else 0)
  {
    if |t| == 0 then t
    else if t[0].key == k then Remove(t[1..], k)
    else
      var r := [t[0]] + Remove(t[1..], k);
      assert r[1..] == Remove(t[1..], k);
      r
  }

  /** A table with distinct keys has exactly as many entries as keys. */
  lemma {:induction false} DistinctCardinality<K(!new), V>(t: Table<K, V>)
    requires Distinct(t)
    ensures |Keys(t)| == |t|
  {
    if |t| > 0 {
      DistinctCardinality(t[1..]);
    }
  }

  /** Every entry's key is a key of the table. */
  lemma {:induction false} EntryKeyIn<K(!new), V>(t: Table<K, V>, i: nat)
    requires i < |t|
    ensures t[i].key in Keys(t)
  {
    if i > 0 {
      EntryKeyIn(t[1..], i - 1);
    }
  }

  /** Looking a key up in a concatenation: the first part wins. */
  lemma {:induction false} GetAppend<K(!new), V>(t: Table<K, V>, u: Table<K, V>, k: K)
    ensures Get(t + u, k) == if k in Keys(t) then Get(t, k) else Get(u, k)
  {
    if |t| > 0 {
      assert (t + u)[1..] == t[1..] + u;
      GetAppend(t[1..], u, k);
    } else {
      assert t + u == u;
    }
  }

  /** The keys of a concatenation. */
  lemma {:induction false} KeysAppend<K(!new), V>(t: Table<K, V>, u: Table<K, V>)
    ensures Keys(t + u) == Keys(t) + Keys(u)
  {
    if |t| > 0 {
      assert (t + u)[1..] == t[1..] + u;
      KeysAppend(t[1..], u);
    } else {
      assert t + u == u;
    }
  }

  /** In a table with distinct keys, each entry is what its key looks up. */
  lemma {:induction false} GetEntry<K(!new), V>(t: Table<K, V>, i: nat)
    requires Distinct(t) && i < |t|
    ensures Get(t, t[i].key) == Some(t[i].value)
  {
    if i > 0 {
      EntryKeyIn(t[1..], i - 1);
      assert t[1..][i - 1] == t[i];
      GetEntry(t[1..], i - 1);
    }
  }

  /** A value found under a key is stored in an entry with that key. */
  lemma {:induction false} GetFound<K(!new), V>(t: Table<K, V>, k: K)
    requires Get(t, k).Some?
    ensures exists i :: 0 <= i < |t| && t[i] == Entry(k, Get(t, k).value)
  {
    if t[0].key != k {
      GetFound(t[1..], k);
      var i :| 0 <= i < |t[1..]| && t[1..][i] == Entry(k, Get(t, k).value);
      assert t[i + 1] == t[1..][i];
    } else {
      assert t[0] == Entry(k, Get(t, k).value);
    }
  }
}
