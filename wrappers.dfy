/** Option and Result, the two failure-carrying types the rest of the model uses. */
module Wrappers {

  /** A JavaScript value that may be `undefined` or `null`. */
  datatype Option<+T> = None | Some(value: T) {

    /** The value, or `default` when absent: JavaScript's `x ?? default`. */
    function GetOr(default: T): T {
      match this
      case Some(v) => v
      case None => default
    }
  }

  /** The outcome of an awaited call: a value, or the message of the error it threw. */
  datatype Result<+T> = Success(value: T) | Failure(message: string)
}
