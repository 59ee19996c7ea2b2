/**
  Key/value collections that remember the order in which keys were first
  written: JavaScript objects with string keys, `Map`s, and the key listing of
  a storage backend.
 */
module OrderedMap {
  import opened Seqs

  datatype OMap<K, V> = OMap(keys: seq<K>, values: map<K, V>) {
    /** Every key is listed exactly once, in insertion order. */
    predicate Valid() {
      NoDup(keys) && Elems(keys) == values.Keys
    }
  }

  function Empty<K, V>(): (m: OMap<K, V>)
    ensures m.Valid()
  {
    OMap([], map[])
  }

  function Get<K, V>(m: OMap<K, V>, k: K): (r: Option<V>)
    ensures r.Some? <==> k in m.values
    ensures r.Some? ==> r.value == m.values[k]
  {
    if k in m.values then Some(m.values[k]) else None
  }

  /** `m[k] = v`: a new key goes to the end of the listing, an existing one keeps its place. */
  function Put<K, V>(m: OMap<K, V>, k: K, v: V): (r: OMap<K, V>)
    requires m.Valid()
    ensures r.Valid()
    ensures r.values == m.values[k := v]
    ensures k in m.values ==> r.keys == m.keys
    ensures k !in m.values ==> r.keys == m.keys + [k]
  {
    if k in m.values then OMap(m.keys, m.values[k := v])
    else
      ElemsConcat(m.keys, [k]);
      OMap(m.keys + [k], m.values[k := v])
  }

  /** `delete m[k]`: the other keys keep their order. */
  function Remove<K, V>(m: OMap<K, V>, k: K): (r: OMap<K, V>)
    requires m.Valid()
    ensures r.Valid()
    ensures r.values == m.values - {k}
    ensures forall j | j in r.keys :: j in m.keys
  {
    var ks := Filter(m.keys, j => j != k);
    FilterNoDup(m.keys, j => j != k);
    OMap(ks, m.values - {k})
  }

  lemma {:induction false} FilterNoDup<T>(s: seq<T>, p: T -> bool)
    requires NoDup(s)
    ensures NoDup(Filter(s, p))
  {
    if |s| > 0 {
      var init := s[..|s| - 1];
      assert NoDup(init);
      FilterNoDup(init, p);
      assert s[|s| - 1] !in init;
      assert s[|s| - 1] !in Filter(init, p);
    }
  }

  /** Maps that answer every lookup alike hold the same entries. */
  lemma GetExtensional<K, V>(m1: OMap<K, V>, m2: OMap<K, V>)
    requires forall k :: Get(m1, k) == Get(m2, k)
    ensures m1.values == m2.values
  {
    assert forall k :: k in m1.values <==> Get(m1, k).Some?;
  }
}
