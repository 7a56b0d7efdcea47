/** Option and Result, the two wrapper types the model uses. */
module Wrappers {

  /** A value that may be missing (Python's `None`). */
  datatype Option<+T> = None | Some(value: T)

  /** A computation that either succeeds with a value or fails with an error
      (a raised exception in the original code). */
  datatype Result<+R, +E> = Success(value: R) | Failure(error: E)
}
