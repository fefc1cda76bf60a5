/** Failure-compatible wrapper types shared by every module of the model. */
module Wrappers {

  /** A value that may be absent: a no-data cell, an empty table column, a missing row. */
  datatype Option<+T> = None | Some(value: T) {

    /** Returns the value held in Some, or `default` when None. */
    function GetOr(default: T): T {
      match this
      case Some(v) => v
      case None => default
    }
  }

  /** Either a value or the error that stopped the computation. */
  datatype Result<+T, +E> = Success(value: T) | Failure(error: E)
}
