/** Option and Result, the two failure-carrying shapes the model uses for Python's
    `None` values and for request paths that end in an error response. */
module Wrappers {

  /** A value that may be absent; `None` stands for Python's `None`. */
  datatype Option<+T> = None | Some(value: T) {

    /** The value, or `default` when absent (Python's `d.get(key, default)`). */
    function GetOr(default: T): T {
      match this
      case Some(v) => v
      case None => default
    }
  }

  /** Either a response body or the error that replaced it. */
  datatype Result<+R, +E> = Success(value: R) | Failure(error: E)
}
