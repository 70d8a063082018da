/** A Python dictionary: iteration follows the first insertion of each key, a later value replaces an earlier one. */
module PyDict {

  datatype Dict<K(==), V> = Dict(keys: seq<K>, entries: map<K, V>)

  function Empty<K(==), V>(): Dict<K, V> { Dict([], map[]) }

  function Put<K(==), V>(d: Dict<K, V>, k: K, v: V): Dict<K, V> {
    Dict(if k in d.entries then d.keys else d.keys + [k], d.entries[k := v])
  }

  ghost predicate WellFormed<K(!new), V>(d: Dict<K, V>) {
    forall k :: k in d.keys <==> k in d.entries
  }

  /** `list(d.values())` */
  function Values<K(==), V>(d: Dict<K, V>): (vs: seq<V>)
    requires forall k | k in d.keys :: k in d.entries
    ensures |vs| == |d.keys| && forall i | 0 <= i < |vs| :: vs[i] == d.entries[d.keys[i]]
  {
    seq(|d.keys|, i requires 0 <= i < |d.keys| => d.entries[d.keys[i]])
  }
}
