/** The wrapper type the model needs, a Java reference that may be `null`, and map lookup into it. */
module Wrappers {

  /** `None` stands for a Java `null` result, `Some(v)` for a present value. */
  datatype Option<+T> = None | Some(value: T)

  /** `Some` of the key's value, or `None` when `m` has no mapping for it: what `Map.get` returns. */
  function Lookup<K, V>(m: map<K, V>, key: K): (r: Option<V>)
    ensures r.Some? <==> key in m
    ensures r.Some? ==> r.value == m[key]
  {
    if key in m then Some(m[key]) else None
  }
}
