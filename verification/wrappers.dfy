/** Optional values and results, standing in for Java's null returns and exceptions. */
module Wrappers {

  /** A value that may be absent (Java `null`). */
  datatype Option<+T> = None | Some(value: T) {
    function GetOr(default: T): T {
      match this
      case Some(v) => v
      case None => default
    }
  }

  /** The outcome of a step that may fail with an error of type E. */
  datatype Result<+R, +E> = Success(value: R) | Failure(error: E)
}
