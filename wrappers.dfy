/** Option and Result, the two sum types the Rust crate returns from its fallible operations. */
module Wrappers {

  datatype Option<T> = None | Some(value: T) {
    /** Rust's `unwrap_or`. */
    function GetOr(default: T): (r: T)
      ensures Some? ==> r == value
      ensures None? ==> r == default
    {
      match this
      case Some(v) => v
      case None => default
    }
  }

  datatype Result<T, E> = Ok(value: T) | Err(error: E)
}
