/**
 An insertion-ordered map, as an ECMAScript `Map` behaves: `keys` lists the
 keys in the order in which they were first set, `vals` holds the entries.
 Setting a key that is present replaces its value and keeps its position;
 deleting a key takes it out of the order.
 */
module OrderedMap {
  import opened Seqs

  datatype OMap<K, T> = OMap(keys: seq<K>, vals: map<K, T>)

  /** The order lists each key of the map exactly once. */
  predicate Valid<K, T>(m: OMap<K, T>)
  {
    && Distinct(m.keys)
    && (forall i :: 0 <= i < |m.keys| ==> m.keys[i] in m.vals)
    && (forall k :: k in m.vals ==> k in m.keys)
  }

  /** `new Map()` */
  function Empty<K, T>(): (m: OMap<K, T>)
    ensures Valid(m) && m.keys == [] && m.vals == map[]
  {
    OMap([], map[])
  }

  /** `m.set(k, v)` */
  function Set<K, T>(m: OMap<K, T>, k: K, v: T): (r: OMap<K, T>)
    ensures r.vals == m.vals[k := v]
    ensures k in m.vals ==> r.keys == m.keys
    ensures k !in m.vals ==> r.keys == m.keys + [k]
    ensures Valid(m) ==> Valid(r)
  {
    if k in m.vals then
      OMap(m.keys, m.vals[k := v])
    else
      var r := OMap(m.keys + [k], m.vals[k := v]);
      if Valid(m) then
        DistinctAppend(m.keys, [k]);
        r
      else r
  }

  /** `m.delete(k)` */
  function Delete<K, T>(m: OMap<K, T>, k: K): (r: OMap<K, T>)
    ensures r.vals == m.vals - {k}
    ensures r.keys == Keep(m.keys, {k})
    ensures Valid(m) ==> Valid(r)
  {
    var r := OMap(Keep(m.keys, {k}), m.vals - {k});
    if Valid(m) then
      KeepDistinct(m.keys, {k});
      r
    else r
  }

  /** The entries of `vals` under the keys listed in `ks`. */
  function Restrict<K, T>(ks: seq<K>, vals: map<K, T>): map<K, T>
  {
    map k | k in ks && k in vals :: vals[k]
  }

  /** Walking the order one key further adds that key's entry. */
  lemma RestrictStep<K, T>(ks: seq<K>, vals: map<K, T>, i: nat)
    requires i < |ks| && ks[i] in vals
    ensures Restrict(ks[..i + 1], vals) == Restrict(ks[..i], vals)[ks[i] := vals[ks[i]]]
  {
    assert ks[..i + 1] == ks[..i] + [ks[i]];
  }

  /** Walking the whole order visits every entry. */
  lemma RestrictAll<K, T>(m: OMap<K, T>)
    requires Valid(m)
    ensures Restrict(m.keys, m.vals) == m.vals
  {
  }
}
