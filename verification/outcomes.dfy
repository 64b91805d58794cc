/** Optional values and results with a failure case, standing in for Python's
    `None` and for the exceptions the manager raises. */
module Outcomes {

  /** A value that may be absent (Python's `None`). */
  datatype Option<+T> = None | Some(value: T)

  /** Either a value or the error that would have been raised instead. */
  datatype Result<+T, +E> = Success(value: T) | Failure(error: E)
}
