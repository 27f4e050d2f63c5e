/**
 * Shared value types. A missing cell of the restaurant table (pandas' NaN)
 * is `None`; a present cell is `Some(value)`.
 */
module Common {

  datatype Option<+T> = None | Some(value: T)

  /** `m[x]` for a present `x` that is a key of `m`, missing otherwise (pandas `Series.map(dict)`). */
  function MapThrough<K, V>(x: Option<K>, m: map<K, V>): (r: Option<V>)
    ensures r.Some? <==> x.Some? && x.value in m
    ensures r.Some? ==> r.value == m[x.value]
  {
    if x.Some? && x.value in m then Some(m[x.value]) else None
  }
}
