/** The outcome of an operation that can fail, in the shape of Rust's `Result`. */
module Wrappers {

  datatype Result<+T, +E> = Ok(value: T) | Err(error: E)

}
