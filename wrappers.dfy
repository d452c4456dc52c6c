/** The `Option` and `Result` shapes of Rust's standard library, as the decoder uses them. */
module Wrappers {

  datatype Option<+T> = None | Some(value: T)

  datatype Result<+T, +E> = Ok(value: T) | Err(error: E)
}
