/** Failure-compatible wrappers used by the rest of the model. */
module Wrappers {

  /** An optional value: a missing file, an absent session entry, a skipped line. */
  datatype Option<+T> = None | Some(value: T) {

    /** The value held in Some, or `default` for None. */
    function GetOr(default: T): T {
      match this
      case Some(v) => v
      case None => default
    }
  }

  /** Either the value a call returned or the message of the error it raised. */
  datatype Result<+R, +E> = Success(value: R) | Failure(error: E)

  /** The binding of `k` in `m`, if there is one (Python's `dict.get`). */
  function Get<K, V>(m: map<K, V>, k: K): (r: Option<V>)
    ensures r.Some? <==> k in m
    ensures r.Some? ==> r.value == m[k]
  {
    if k in m then Some(m[k]) else None
  }
}
