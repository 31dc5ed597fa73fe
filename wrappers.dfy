/** Optional values and results used by the library model. */
module Wrappers {

  /** A value that may be absent: an answer to a dialog that was cancelled. */
  datatype Option<+T> = None | Some(value: T)

  /** Either a successful value or the reason a statement was refused. */
  datatype Result<+T, +E> = Success(value: T) | Failure(error: E)
}
