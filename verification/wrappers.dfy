/** Failure-carrying return values, standing in for the exceptions the source raises. */
module Wrappers {

  /** A value that may be absent (Python's `Optional`). */
  datatype Optional<+T> = None | Some(value: T)

  /** The result of an accessor: a value, or the error it would raise. */
  datatype Result<+R, +E> = Success(value: R) | Failure(error: E)

  /** The result of an operation that returns nothing: it passed, or it raised `error`. */
  datatype Outcome<+E> = Pass | Fail(error: E)
}
