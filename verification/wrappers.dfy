/** Option and Result, the two failure-carrying shapes the repository hands
    back: Rust's `Option<T>` for "may be absent" and `Result<T, E>` for
    "may fail". Only the combinators the repository uses are defined. */
module Wrappers {

  datatype Option<+T> = None | Some(value: T) {

    /** Rust's `Option::unwrap_or`: the wrapped value, or `default` when absent. */
    function GetOr(default: T): (r: T)
      ensures Some? ==> r == value
      ensures None? ==> r == default
    {
      match this
      case Some(v) => v
      case None => default
    }

    /** Rust's `Option::or`: this option if it holds a value, otherwise `other`. */
    function Or(other: Option<T>): (r: Option<T>)
      ensures Some? ==> r == this
      ensures None? ==> r == other
      ensures r.Some? <==> Some? || other.Some?
    {
      match this
      case Some(_) => this
      case None => other
    }
  }

  datatype Result<+T, +E> = Ok(value: T) | Err(error: E)
}
