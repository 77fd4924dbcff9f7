/** The two failure-carrying shapes used across the configuration layer. */
module Wrappers {

  /** A value that may be missing, as `undefined` is in the source. */
  datatype Option<+T> = None | Some(value: T) {

    /** The `??` operator: the value when present, else `default`. */
    function GetOr(default: T): T {
      match this
      case Some(v) => v
      case None => default
    }
  }

  /** A computation that either succeeds or fails with an error (a thrown exception). */
  datatype Result<+T, +E> = Success(value: T) | Failure(error: E)
}
