/** Option and Result, the two wrappers the rest of the model returns. */
module Wrappers {

  /** A value that may be absent, such as "no progress message for this count". */
  datatype Option<+T> = None | Some(value: T)

  /** A computation that either succeeds with a value or fails with an error. */
  datatype Result<+R, +E> = Success(value: R) | Failure(error: E)
}
