/** Failure-carrying result types used across the model. */
module Wrappers {

  /** A value that may be absent (Python's `Optional[...]` / `None`). */
  datatype Option<+T> = None | Some(value: T)

  /** Either a value or the error the source would raise instead. */
  datatype Result<+R, +E> = Success(value: R) | Failure(error: E)
}
