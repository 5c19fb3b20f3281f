/**
 * PHP's ordered arrays with string keys: a map plus the order in which its
 * keys were first inserted.
 */
module OrderedMap {
  import opened Seqs

  datatype OMap<V> = OMap(keys: seq<string>, vals: map<string, V>) {

    /** Every key occurs once in `keys`, and `keys` lists exactly the map's domain. */
    ghost predicate Valid() {
      Distinct(keys) && forall k :: k in vals <==> k in keys
    }

    /** `$a[k] = v`: an existing key keeps its position, a new key goes last. */
    function Set(k: string, v: V): (r: OMap<V>)
      requires Valid()
      ensures r.Valid()
      ensures r.vals == vals[k := v]
      ensures k in vals ==> r.keys == keys
      ensures k !in vals ==> r.keys == keys + [k]
    {
      if k in vals then OMap(keys, vals[k := v]) else OMap(keys + [k], vals[k := v])
    }

    /** `unset($a[k])`: the other keys keep their relative order. */
    function Unset(k: string): (r: OMap<V>)
      requires Valid()
      ensures r.Valid()
      ensures r.vals == vals - {k}
      ensures r.keys == Without(keys, k)
    {
      OMap(Without(keys, k), vals - {k})
    }
  }

  function Empty<V>(): (r: OMap<V>)
    ensures r.Valid() && r.keys == [] && r.vals == map[]
  {
    OMap([], map[])
  }

  /** Two valid ordered maps with the same keys in the same order and the same values are equal. */
  lemma SameEntries<V>(a: OMap<V>, b: OMap<V>)
    requires a.Valid() && b.Valid() && a.keys == b.keys
    requires forall k :: k in a.vals ==> k in b.vals && a.vals[k] == b.vals[k]
    ensures a == b
  {
    assert a.vals == b.vals;
  }
}
