/** Option and Result, the two failure-carrying types used throughout the model. */
module Wrappers {

  datatype Option<+T> = None | Some(value: T)

  /** A Rust `Result`: `Ok` carries the value, `Err` the error. */
  datatype Result<+T, +E> = Ok(value: T) | Err(error: E)
}
