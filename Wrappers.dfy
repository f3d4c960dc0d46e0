/** Failure-carrying results, for the source's thrown exceptions and its `null`/default returns. */
module Wrappers {

  datatype Option<+T> = None | Some(value: T)

  /** The outcome of an operation that returns a value or throws. */
  datatype Result<+R, +E> = Success(value: R) | Failure(error: E)

  /** The outcome of a `void` operation that returns normally or throws. */
  datatype Outcome<+E> = Pass | Fail(error: E)
}
