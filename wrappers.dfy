/** Option and Result values, standing in for Rust's Option<T> and Result<T, E>. */
module Wrappers {

  datatype Option<+T> = None | Some(value: T)

  datatype Result<+T, +E> = Ok(value: T) | Err(error: E)
}
