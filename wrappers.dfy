/** Failure-carrying values: Python's `None` results and raised exceptions. */
module Wrappers {

  /** A value or nothing, as a Python function returning `T | None`. */
  datatype Option<+T> = None | Some(value: T)

  /** A value or the error that a Python call would have raised. */
  datatype Result<+T, +E> = Success(value: T) | Failure(error: E)
}
