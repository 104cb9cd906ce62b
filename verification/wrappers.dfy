/** Option and Result, shared by the rest of the model. */
module Wrappers {

  /** A value that may be absent. */
  datatype Option<+T> = None | Some(value: T)

  /** Either a value or an error describing why there is none. */
  datatype Result<+T, +E> = Success(value: T) | Failure(error: E)
}
