/** Python dicts with integer keys, which remember the order in which keys were first inserted. */
module Dicts {
  import opened Seqs

  /** keys: the keys in insertion order (what list(d.keys()) returns); values: the mapping itself. */
  datatype Dict<V> = Dict(keys: seq<int>, values: map<int, V>)
  {
    /** Each key is listed once, and exactly the keys of the mapping are listed. */
    ghost predicate Valid()
    {
      Distinct(keys) && forall k :: k in values <==> k in keys
    }

    /** d[k] = v: a new key goes to the end of the key order, an existing key keeps its place. */
    function Set(k: int, v: V): (d: Dict<V>)
      ensures Valid() ==> d.Valid()
      ensures k in d.values && d.values[k] == v
      ensures forall k' :: k' != k ==> (k' in d.values <==> k' in values)
      ensures forall k' :: k' != k && k' in values ==> d.values[k'] == values[k']
      ensures k in values ==> d.keys == keys
      ensures k !in values ==> d.keys == keys + [k]
    {
      Dict(if k in values then keys else keys + [k], values[k := v])
    }
  }

  /** {} */
  function Empty<V>(): (d: Dict<V>)
    ensures d.Valid() && d.keys == [] && d.values == map[]
  {
    Dict([], map[])
  }
}
