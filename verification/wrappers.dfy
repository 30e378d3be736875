/** Failure-compatible result types shared by the rest of the model. */
module Wrappers {

  /** A value that may be absent: a PHP `null`/missing array key or a JavaScript `null`. */
  datatype Option<+T> = None | Some(value: T) {
    function GetOr(default: T): T {
      match this
      case Some(v) => v
      case None => default
    }
  }

  /** Either a value or an error that the source would raise. */
  datatype Result<+R, +E> = Success(value: R) | Failure(error: E)
}
