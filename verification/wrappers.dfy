/** Option and Result, the two failure-carrying datatypes the model uses. */
module Wrappers {

  /** A value that may be absent (a JavaScript `null`/`undefined`, a falsy field). */
  datatype Option<+T> = None | Some(value: T) {

    /** The wrapped value, or `default` when absent (JavaScript's `x ?? default`). */
    function GetOr(default: T): T {
      match this
      case Some(v) => v
      case None => default
    }
  }

  /** The outcome of an operation that can throw: `Err` carries what it threw. */
  datatype Result<+T, +E> = Ok(value: T) | Err(error: E)
}
