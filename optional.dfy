/** A value that may be missing: JavaScript's `undefined` where the source checks for it. */
module Optional {

  datatype Option<T> = None | Some(value: T)

  /** Looks `k` up in `m`, giving None for a missing key (the host's `undefined`). */
  function Lookup<K, V>(m: map<K, V>, k: K): (r: Option<V>)
    ensures r.Some? <==> k in m
    ensures r.Some? ==> r.value == m[k]
  {
    if k in m then Some(m[k]) else None
  }
}
