/** Option and Result, the failure-carrying values that stand for Python's
    `None` returns and raised exceptions throughout the model. */
module Wrappers {

  datatype Option<+T> = None | Some(value: T)

  datatype Result<+T, +E> = Success(value: T) | Failure(error: E)

  /** An operation that returns nothing on success and raises on failure. */
  datatype Outcome<+E> = Pass | Fail(error: E)
}
