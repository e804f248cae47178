/** Failure-carrying datatypes shared by the whole model. */
module Wrappers {

  /** Python's `None` versus a present value. */
  datatype Option<+T> = None | Some(value: T) {

    /** The value, or `default` for None (Python's `x or default` when x is never falsy). */
    function GetOr(default: T): T {
      match this
      case Some(v) => v
      case None => default
    }
  }

  /** A computation that either yields a value or raises. */
  datatype Result<+R, +E> = Success(value: R) | Failure(error: E)
}
