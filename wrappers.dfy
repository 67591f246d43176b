/** Optional values and results with an error, as used across the exporter model. */
module Wrappers {

  datatype Option<+T> = None | Some(value: T) {
    /** The stored value, or `default` when absent (the `GM_getValue(key, default)` reading). */
    function GetOr(default: T): T {
      match this
      case Some(v) => v
      case None => default
    }
  }

  datatype Result<+T, +E> = Success(value: T) | Failure(error: E)
}
