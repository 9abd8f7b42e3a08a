/** Optional values and success/failure results used across the model. */
module Wrappers {

  datatype Option<+T> = None | Some(value: T) {

    /** The wrapped value, or `default` when there is none. */
    function GetOr(default: T): T {
      match this
      case Some(v) => v
      case None => default
    }
  }

  /** The outcome of an operation that can fail with an error of type `E`. */
  datatype Result<+R, +E> = Success(value: R) | Failure(error: E)
}
