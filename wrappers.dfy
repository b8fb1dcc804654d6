/** Failure-carrying values used for the updater's `Result<T>` and `Option<T>`. */
module Wrappers {

  datatype Option<+T> = None | Some(value: T) {
    /** The contained value, or `default` when absent (Rust's `unwrap_or`). */
    function GetOr(default: T): T {
      match this
      case Some(v) => v
      case None => default
    }
  }

  datatype Result<+R, +E> = Success(value: R) | Failure(error: E)

  /** A `Result<()>`: either success or an error value. */
  datatype Outcome<+E> = Pass | Fail(error: E)

  /** Error values are the strings the updater shows to the user. */
  type Error = string
}
