/** Option and Result, the two failure-carrying types the client's Rust code is written with. */
module Wrappers {

  datatype Option<+T> = None | Some(value: T) {

    /** Rust's `Option::and_then`. */
    function AndThen<U>(f: T -> Option<U>): Option<U> {
      match this
      case None => None
      case Some(v) => f(v)
    }

    /** Rust's `Option::map`. */
    function Map<U>(f: T -> U): Option<U> {
      match this
      case None => None
      case Some(v) => Some(f(v))
    }

    /** Rust's `Option::unwrap_or`. */
    function UnwrapOr(default: T): T {
      match this
      case None => default
      case Some(v) => v
    }
  }

  datatype Result<+T, +E> = Ok(value: T) | Err(error: E)
}
