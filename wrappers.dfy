/** Failure-compatible result types shared by the model's modules. */
module Wrappers {

  /** A value that may be absent (Python's `None`). */
  datatype Option<+T> = None | Some(value: T)

  /** A computed value or the error that was raised instead. */
  datatype Result<+R, +E> = Success(value: R) | Failure(error: E)

  /** Success without a value, or the error that was raised. */
  datatype Outcome<+E> = Pass | Fail(error: E)
}
