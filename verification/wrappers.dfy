/** Failure-compatible return types shared by the model. A Python
    exception raised by the modelled code (a KeyError, an IndexError, a
    ValueError from `max` of nothing) becomes a `Failure`. */
module Wrappers {

  datatype Option<+T> = None | Some(value: T)

  datatype Result<+T, +E> = Success(value: T) | Failure(error: E)

  /** The value stored under `k`, or None: how networkx answers a query
      for an attribute that a node does not carry. */
  function Get<K, V>(m: map<K, V>, k: K): (r: Option<V>)
    ensures r.Some? <==> k in m
    ensures r.Some? ==> r.value == m[k]
  {
    if k in m then Some(m[k]) else None
  }
}
