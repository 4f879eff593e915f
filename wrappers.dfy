/** Optional values: JavaScript's `undefined`/`null` (or a missing map entry) is `None`. */
module Wrappers {

  datatype Option<+T> = None | Some(value: T) {

    /** The value, or `default` when there is none (JavaScript's `x ?? default`). */
    function GetOr(default: T): T {
      match this
      case Some(v) => v
      case None => default
    }
  }

  /** A value, or the error a JavaScript function would have thrown. */
  datatype Result<+T, +E> = Success(value: T) | Failure(error: E)

  /** `m.get(k)` on a JavaScript Map or Headers object. */
  function Lookup<K, V>(m: map<K, V>, k: K): Option<V> {
    if k in m then Some(m[k]) else None
  }
}
