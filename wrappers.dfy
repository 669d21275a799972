/** Option and Result values used in place of JavaScript's null and thrown errors. */
module Wrappers {

  datatype Option<+T> = None | Some(value: T)

  /** The outcome of a handler: a value, or the error it throws. */
  datatype Result<+T, +E> = Success(value: T) | Failure(error: E)

  /** The outcome of a guard that returns nothing when it passes. */
  datatype Outcome<+E> = Pass | Fail(error: E)
}
