/** Optional values and results with an error, as the repositories and the resources return them. */
module Wrappers {

  /** A value that may be absent (Python's `None`). */
  datatype Option<+T> = None | Some(value: T)

  /** Either a value or the error the source raises instead of returning. */
  datatype Result<+R, +E> = Success(value: R) | Failure(error: E)
}
