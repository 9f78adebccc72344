/** A failure-compatible result type for operations of the model that raise. */
module Wrappers {

  datatype Result<+T, +E> = Ok(value: T) | Err(error: E)

}
