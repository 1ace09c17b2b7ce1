/** Option and Result, standing in for JavaScript's null/undefined and thrown errors. */
module Wrappers {

  /** `None` plays the role of `null` (or `undefined`) in the widget's code. */
  datatype Option<+T> = None | Some(value: T) {

    /** Returns the value held in Some, or the given default. */
    function GetOr(default: T): T {
      match this
      case Some(v) => v
      case None => default
    }
  }

  /** A successful value, or the error a JavaScript constructor would throw. */
  datatype Result<+R, +E> = Success(value: R) | Failure(error: E)
}
