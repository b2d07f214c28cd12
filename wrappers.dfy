/** Failure-carrying values shared by the other modules. */
module Wrappers {

  /** An optional value, like Rust's Option. */
  datatype Option<+T> = None | Some(value: T)

  /** A value or an error message, like Rust's Result (and anyhow::Result). */
  datatype Result<+T, +E> = Ok(value: T) | Err(error: E)
}
