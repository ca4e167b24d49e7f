/** The `Option` and `Result` datatypes shared by every module of the model. */
module Wrappers {

  /** A value that may be absent; `None` stands for Java's `null` and Python's `None`. */
  datatype Option<+T> = None | Some(value: T)

  /** The outcome of an operation that can throw: a value, or the exception it raised. */
  datatype Result<+R, +E> = Success(value: R) | Failure(error: E)

  /** Map lookup that answers `None` for a missing key (Java `Map.get`, Python `dict.get`). */
  function Get<K, V>(m: map<K, V>, k: K): (r: Option<V>)
    ensures r.Some? <==> k in m
    ensures r.Some? ==> r.value == m[k]
  {
    if k in m then Some(m[k]) else None
  }
}
