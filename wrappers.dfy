/** Failure-carrying values: the Go code's `(T, error)` pairs and bare `error` returns. */
module Wrappers {

  datatype Option<+T> = None | Some(value: T)

  /** A value or an error, for functions that return `(T, error)`. */
  datatype Result<+T, +E> = Ok(value: T) | Err(error: E)

  /** No value, only success or an error, for functions that return `error`. */
  datatype Outcome<+E> = Pass | Fail(error: E)
}
