/** Failure-carrying wrappers used throughout the model. */
module Wrappers {

  /** A value that may be absent; stands for a nullable Java reference. */
  datatype Option<+T> = None | Some(value: T)

  /** Either a value or the error that a Java call would have thrown instead. */
  datatype Result<+T, +E> = Ok(value: T) | Err(error: E)
}
