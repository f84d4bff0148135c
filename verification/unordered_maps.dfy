/**
 * An abstract model of near_sdk's `UnorderedMap<K, V>`, whose source is not part
 * of this model. The map is modelled as a sequence of distinct keys together
 * with a key-to-value map over exactly those keys. MODELLING ASSUMPTION about
 * the library (only the operations used by the attestation registry):
 *   - `insert` of a key not yet present appends the key at the end of the order;
 *   - `insert` of a key already present replaces its value in place, so the key
 *     keeps its position;
 *   - `values` / `values_as_vector` enumerate the values in key order.
 * Removal (which swaps the last key into the hole) is never used and is not modelled.
 */
module UnorderedMaps {
  import opened Wrappers

  /** True iff no element of `s` occurs twice. */
  predicate Distinct<T(==,!new)>(s: seq<T>) {
    forall i, j :: 0 <= i < j < |s| ==> s[i] != s[j]
  }

  datatype UnorderedMap<K(==,!new), V> = UnorderedMap(keys: seq<K>, entries: map<K, V>) {

    /** The keys are distinct and are exactly the keys of the entry map. */
    predicate Valid() {
      && Distinct(keys)
      && (forall k :: k in keys ==> k in entries)
      && (forall k :: k in entries ==> k in keys)
    }
  }

  /** `UnorderedMap::new`: no keys, no entries. */
  function Empty<K(==,!new), V>(): (m: UnorderedMap<K, V>)
    ensures m.Valid()
    ensures forall k :: Get(m, k) == None
    ensures |m.keys| == 0
  {
    UnorderedMap([], map[])
  }

  /** `UnorderedMap::get`: the value stored under `k`, or None. */
  function Get<K(==,!new), V>(m: UnorderedMap<K, V>, k: K): (r: Option<V>)
    requires m.Valid()
    ensures r.Some? <==> k in m.keys
    ensures r.Some? ==> r.value == m.entries[k]
  {
    if k in m.entries then Some(m.entries[k]) else None
  }

  /** `UnorderedMap::insert`: upsert `v` under `k`. */
  function Insert<K(==,!new), V>(m: UnorderedMap<K, V>, k: K, v: V): (r: UnorderedMap<K, V>)
    requires m.Valid()
    ensures r.Valid()
    ensures Get(r, k) == Some(v)
    ensures forall j :: j != k ==> Get(r, j) == Get(m, j)
    ensures k in m.keys ==> r.keys == m.keys
    ensures k !in m.keys ==> r.keys == m.keys + [k]
  {
    if k in m.entries then
      UnorderedMap(m.keys, m.entries[k := v])
    else
      UnorderedMap(m.keys + [k], m.entries[k := v])
  }

  /** The values stored under `keys`, in the order of `keys`. */
  function ValuesOf<K(==,!new), V>(keys: seq<K>, entries: map<K, V>): (vs: seq<V>)
    requires forall k :: k in keys ==> k in entries
    ensures |vs| == |keys|
    ensures forall i :: 0 <= i < |keys| ==> vs[i] == entries[keys[i]]
  {
    if keys == [] then []
    else ValuesOf(keys[..|keys| - 1], entries) + [entries[keys[|keys| - 1]]]
  }

  /** `UnorderedMap::values_as_vector().to_vec()`: all values in key order. */
  function Values<K(==,!new), V(!new)>(m: UnorderedMap<K, V>): (vs: seq<V>)
    requires m.Valid()
    ensures |vs| == |m.keys| == |m.entries|
    ensures forall i :: 0 <= i < |vs| ==> m.keys[i] in m.entries && vs[i] == m.entries[m.keys[i]]
  {
    DistinctKeysCount(m);
    ValuesOf(m.keys, m.entries)
  }

  /** `UnorderedMap::values().last()`: the value of the last key, or None when empty. */
  function Last<K(==,!new), V(!new)>(m: UnorderedMap<K, V>): (r: Option<V>)
    requires m.Valid()
    ensures r.None? <==> Values(m) == []
    ensures r.Some? ==> r.value == Values(m)[|Values(m)| - 1]
  {
    if |m.keys| == 0 then None else Some(m.entries[m.keys[|m.keys| - 1]])
  }

  /** A valid map has as many entries as keys in its order. */
  lemma DistinctKeysCount<K(!new), V>(m: UnorderedMap<K, V>)
    requires m.Valid()
    ensures |m.entries| == |m.keys|
  {
    DistinctCardinality(m.keys);
    assert m.entries.Keys == set k | k in m.keys;
  }

  /** A sequence without repetitions has as many distinct elements as it is long. */
  lemma {:induction false} DistinctCardinality<T(!new)>(s: seq<T>)
    requires Distinct(s)
    ensures |set x | x in s| == |s|
  {
    if s != [] {
      var init := s[..|s| - 1];
      var x := s[|s| - 1];
      assert Distinct(init);
      DistinctCardinality(init);
      assert x !in init;
      assert (set y | y in s) == (set y | y in init) + {x};
    }
  }

  /** Changing the entry of a key outside `keys` does not change their values. */
  lemma ValuesOfFrame<K(!new), V>(keys: seq<K>, entries: map<K, V>, k: K, v: V)
    requires forall j :: j in keys ==> j in entries
    requires k !in keys
    ensures ValuesOf(keys, entries[k := v]) == ValuesOf(keys, entries)
  {
  }

  /** Inserting a fresh key appends its value to the enumeration. */
  lemma InsertFreshAppends<K(!new), V(!new)>(m: UnorderedMap<K, V>, k: K, v: V)
    requires m.Valid()
    requires Get(m, k) == None
    ensures Values(Insert(m, k, v)) == Values(m) + [v]
    ensures Last(Insert(m, k, v)) == Some(v)
  {
    var entries := m.entries[k := v];
    assert (m.keys + [k])[..|m.keys|] == m.keys;
    assert ValuesOf(m.keys + [k], entries) == ValuesOf(m.keys, entries) + [v];
    ValuesOfFrame(m.keys, m.entries, k, v);
  }

  /** Inserting an existing key replaces its value at the same position. */
  lemma InsertExistingInPlace<K(!new), V(!new)>(m: UnorderedMap<K, V>, i: nat, v: V)
    requires m.Valid()
    requires i < |m.keys|
    ensures Values(Insert(m, m.keys[i], v)) == Values(m)[i := v]
  {
  }
}
