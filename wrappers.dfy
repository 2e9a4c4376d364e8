/** Result type for the operations whose numpy implementation raises. */
module Wrappers {

  datatype Result<+T> = Ok(value: T) | Err(error: string)
}
