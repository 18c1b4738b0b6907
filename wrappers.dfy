/** Option and Result values for the model's "absent" and "thrown" cases. */
module Wrappers {

  /** A value that may be absent, as JavaScript's `null`. */
  datatype Option<+T> = None | Some(value: T) {

    /** The value, or `default` when absent: JavaScript's `??` operator. */
    function GetOr(default: T): T {
      match this
      case Some(v) => v
      case None => default
    }
  }

  /** A computed value, or the error a function throws instead. */
  datatype Result<+T, +E> = Ok(value: T) | Err(error: E)
}
