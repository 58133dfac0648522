/** Failure-carrying datatypes standing in for Python's exceptions. */
module Wrappers {

  datatype Option<+T> = None | Some(value: T)

  /** The value a call returns, or the exception it raised. */
  datatype Result<+R, +E> = Success(value: R) | Failure(error: E)

  /** A call that returns nothing: it completed, or it raised `error`. */
  datatype Outcome<+E> = Pass | Fail(error: E)
}
