/** Optional values and results with an error, as used throughout the model. */
module Wrappers {

  /** A value that may be missing (a CSV cell that pandas reads as NaN). */
  datatype Option<+T> = None | Some(value: T) {
    /** The value, or `default` when it is missing (pandas' `fillna`). */
    function GetOr(default: T): T {
      match this
      case Some(v) => v
      case None => default
    }
  }

  /** The outcome of an operation that can raise. */
  datatype Result<+T, +E> = Ok(value: T) | Err(error: E)
}
