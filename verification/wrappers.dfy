/** Failure-compatible result types used across the model. */
module Wrappers {

  /** A value that may be absent. */
  datatype Option<+T> = None | Some(value: T)

  /** A value, or the error the Python code raises instead. */
  datatype Result<+R, +E> = Success(value: R) | Failure(error: E)
}
