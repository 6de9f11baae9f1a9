/** Failure-carrying return types that stand for Rust's `Option` and `Result`. */
module Wrappers {

  /** `Option<T>`: `None` is the absent value. */
  datatype Option<+T> = None | Some(value: T)

  /** `Result<T, E>`: `Ok` on success, `Err` with the error payload otherwise. */
  datatype Result<+T, +E> = Ok(value: T) | Err(error: E)
}
