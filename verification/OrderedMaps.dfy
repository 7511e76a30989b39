/**
 Maps that remember the order in which their keys were first inserted, as JavaScript's `Map`
 does. Iteration follows `keys`.
 */
module OrderedMaps {
  import opened Sequences

  datatype MapData<K(==), V> = MapData(keys: seq<K>, entries: map<K, V>)
  {
    ghost predicate Valid() {
      Distinct(keys) && Elems(keys) == entries.Keys
    }

    predicate Has(k: K) {
      k in entries
    }

    function GetOr(k: K, default: V): V {
      if k in entries then entries[k] else default
    }

    /** Overwriting keeps the position of a key; a new key goes to the end. */
    function Set(k: K, v: V): (m: MapData<K, V>)
      requires Valid()
      ensures m.Valid() && m.entries == entries[k := v]
    {
      assert Elems(keys + [k]) == Elems(keys) + {k};
      assert k !in entries ==> k !in Elems(keys);
      MapData(if k in entries then keys else keys + [k], entries[k := v])
    }
  }

  lemma SetGet<K, V>(m: OrderedMap<K, V>, k: K, v: V, u: K, default: V)
    ensures m.Set(k, v).GetOr(u, default) == if u == k then v else m.GetOr(u, default)
  {
    assert m.Set(k, v).entries == m.entries[k := v];
    hide MapData.Set;
  }

  type OrderedMap<K(==), V> = m: MapData<K, V> | m.Valid() witness MapData([], map[])
}
