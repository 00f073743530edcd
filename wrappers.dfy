/** Failure-compatible result types shared by the models below. */
module Wrappers {

  datatype Option<+T> = None | Some(value: T)

  /** The outcome of an operation that either returns a value or throws. */
  datatype Result<+R, +E> = Success(value: R) | Failure(error: E)

  /** The outcome of an operation with no return value that may throw. */
  datatype Outcome<+E> = Pass | Fail(error: E)
}
