/** Option and Result shared by the model. */
module Wrappers {

  /** A value that may be absent; stands for Python's `None`. */
  datatype Option<+T> = None | Some(value: T)

  /** Either a value or the error that took its place. */
  datatype Result<+T, +E> = Success(value: T) | Failure(error: E)
}
