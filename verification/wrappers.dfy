/** Option and Result, the failure-carrying datatypes used across the model. */
module Wrappers {

  /** A value that may be absent; `None` plays the role of `string::npos` and of a null pointer. */
  datatype Option<+T> = None | Some(value: T)

  /** The outcome of an operation that can stop with an error. */
  datatype Result<+R, +E> = Success(value: R) | Failure(error: E)
}
