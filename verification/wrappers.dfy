/** Optional values and success/failure results: the model's rendering of Go's
    nil pointers and `(value, error)` return pairs. */
module Wrappers {

  /** An optional value; `None` plays the role of a nil pointer field. */
  datatype Option<+T> = None | Some(value: T) {

    /** The wrapped value, or `default` when there is none. */
    function GetOr(default: T): T {
      match this
      case Some(v) => v
      case None => default
    }
  }

  /** The outcome of an operation that either yields a value or fails with an error. */
  datatype Result<+T, +E> = Success(value: T) | Failure(error: E)
}
