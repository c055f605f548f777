/** Optional and fallible values: Python's `None`, and an operation that either
    succeeds or raises. */
module Wrappers {

  /** A value that may be absent: a nullable column, or `request.args.get` on a missing key. */
  datatype Option<+T> = None | Some(value: T)

  /** The outcome of a database write: the new state, or the error it raised. */
  datatype Result<+T, +E> = Ok(value: T) | Err(error: E)
}
