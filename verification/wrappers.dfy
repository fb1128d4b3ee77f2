/** Optional values and results with an error side, shared by every module of the model. */
module Wrappers {

  /** A value that may be absent: JavaScript's `undefined`/`null`/`NaN` or Python's `None`. */
  datatype Option<+T> = None | Some(value: T) {

    /** The value, or `default` when absent (`x || default`, `dict.get(k, default)`). */
    function GetOr(default: T): T {
      match this
      case Some(v) => v
      case None => default
    }
  }

  /** The outcome of an operation that may fail with an error value (a thrown error or an HTTP error reply). */
  datatype Result<+T, +E> = Success(value: T) | Failure(error: E)
}
