/** Option, Result and the outcome of a call that may panic. */
module Wrappers {

  datatype Option<+T> = None | Some(value: T) {
    /** Rust's `unwrap_or` / `unwrap_or_default` */
    function GetOr(default: T): T {
      match this
      case Some(v) => v
      case None => default
    }
  }

  datatype Result<+T, +E> = Success(value: T) | Failure(error: E) {
    /** Rust's `unwrap_or_default`, with the default given explicitly */
    function GetOr(default: T): T {
      match this
      case Success(v) => v
      case Failure(_) => default
    }
  }

  /** What a Rust call does when it may `unwrap` a `None` or index out of bounds:
      it either returns a value or panics. */
  datatype Outcome<+T> = Returned(value: T) | Panicked
}
