/** Option and Result, the two failure-carrying types the Rust source uses. */
module Wrappers {

  datatype Option<+T> = None | Some(value: T) {
    /** Rust `unwrap_or`. */
    function GetOr(default: T): T {
      match this
      case Some(v) => v
      case None => default
    }
  }

  /** A fallible result; `Err` stands for a Rust panic or error return. */
  datatype Result<+T, +E> = Ok(value: T) | Err(error: E)
}
