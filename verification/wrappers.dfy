/** The two outcome shapes the mesh tools return: Rust's `Option` and `Result`. */
module Wrappers {

  /** `Option<T>`: a value that may be absent. */
  datatype Option<+T> = None | Some(value: T)

  /** `Result<T, E>`: a success value or a named error. */
  datatype Result<+T, +E> = Ok(value: T) | Err(error: E)
}
