/** Option and Result values shared by the router and the request parsers. */
module Wrappers {

  /** Rust's `Option`. */
  datatype Option<+T> = None | Some(value: T) {
    function GetOr(default: T): T {
      match this
      case Some(v) => v
      case None => default
    }
  }

  /** The outcome of an operation that the Rust code lets fail (a `fail!()` or an `unwrap()` on `None`). */
  datatype Result<+T, +E> = Success(value: T) | Failure(error: E)
}
