/** Result types shared by the models: `Option` for Rust's `Option`, `Result` for its `Result`. */
module Wrappers {
  datatype Option<+T> = None | Some(value: T)

  datatype Result<+T, +E> = Ok(value: T) | Err(error: E)
}
