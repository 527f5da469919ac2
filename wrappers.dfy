/** Rust's `Option` and `Result`, as plain datatypes. */
module Wrappers {

  datatype Option<+T> = None | Some(value: T)

  /** Rust's `Result<T, E>`: `Ok(value)` or `Err(error)`. */
  datatype Result<+T, +E> = Success(value: T) | Failure(error: E)
}
