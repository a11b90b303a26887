/** Small failure-carrying datatypes shared by the model. */
module Wrappers {

  /** A value that may be absent; stands for a nullable pointer. */
  datatype Option<+T> = None | Some(value: T)

  /** Either a value or an error code. */
  datatype Result<+T, +E> = Ok(value: T) | Err(error: E)
}
