/** Python's `dict`: a finite map that remembers the order in which keys were first added. */
module Dicts {

  datatype Dict<K, V> = Dict(keys: seq<K>, entries: map<K, V>)
  {
    /** Every key is listed once, and the listed keys are exactly the mapped ones. */
    predicate Valid()
    {
      && (forall i, j :: 0 <= i < j < |keys| ==> keys[i] != keys[j])
      && (forall k :: k in entries ==> k in keys)
      && (forall i :: 0 <= i < |keys| ==> keys[i] in entries)
    }
  }

  /** `{}`. */
  function Empty<K, V>(): (d: Dict<K, V>)
    ensures d.Valid() && d.keys == [] && d.entries == map[]
  {
    Dict([], map[])
  }

  /**
   * `d[k] = v`: a new key goes to the end of the order, an existing key
   * keeps its place and only its value changes.
   */
  function Put<K, V>(d: Dict<K, V>, k: K, v: V): Dict<K, V>
  {
    if k in d.entries then Dict(d.keys, d.entries[k := v])
    else Dict(d.keys + [k], d.entries[k := v])
  }

  /** Assignment keeps a dictionary valid, maps `k` to `v` and leaves every other key alone. */
  lemma PutSpec<K, V>(d: Dict<K, V>, k: K, v: V)
    requires d.Valid()
    ensures Put(d, k, v).Valid()
    ensures Put(d, k, v).entries == d.entries[k := v]
    ensures k in d.entries ==> Put(d, k, v).keys == d.keys
    ensures k !in d.entries ==> Put(d, k, v).keys == d.keys + [k]
  {
  }
}
