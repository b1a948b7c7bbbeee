/** Failure-carrying result types used in place of the source's exceptions. */
module Wrappers {

  datatype Option<+T> = None | Some(value: T)

  datatype Result<+T, +E> = Success(value: T) | Failure(error: E)

  /** The result of a check that returns nothing or raises. */
  datatype Outcome<+E> = Pass | Fail(error: E)
}
