/** Option and Result, for missing values and for the errors the source raises. */
module Wrappers {

  /** A value that may be absent (a missing value in a numeric column). */
  datatype Option<+T> = None | Some(value: T)

  /** The outcome of an operation that may raise instead of returning. */
  datatype Result<+R, +E> = Success(value: R) | Failure(error: E)
}
