/** `Option` and `Result`, as in Rust. */
module Wrappers {

  /** An optional value, as Rust's `Option<T>`. */
  datatype Option<+T> = None | Some(value: T) {

    /** Returns the value inside `Some`, or `default` for `None` (Rust's `unwrap_or`). */
    function GetOr(default: T): T {
      match this
      case Some(v) => v
      case None => default
    }
  }

  /** A value or an error, as Rust's `Result<T, E>`. */
  datatype Result<+T, +E> = Ok(value: T) | Err(error: E)
}
