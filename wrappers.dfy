/** Option and Result, the two ways the model returns "maybe a value". */
module Wrappers {

  /** A value that may be absent; stands for Go's nil pointers. */
  datatype Option<+T> = None | Some(value: T)

  /** The (value, error) pair of a Go function: an error carries its message text. */
  datatype Result<+T> = Ok(value: T) | Err(error: string)
}
