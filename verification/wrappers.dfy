/** Failure-carrying return types standing in for Go's `(value, error)` pairs
    and bare `error` returns. */
module Wrappers {

  /** A value that may be absent; `None` models a Go `nil` argument. */
  datatype Option<+T> = None | Some(value: T)

  /** A value or the error that replaced it. */
  datatype Result<+R, +E> = Success(value: R) | Failure(error: E)

  /** The outcome of an operation that returns only an error (`nil` is `Pass`). */
  datatype Outcome<+E> = Pass | Fail(error: E)
}
