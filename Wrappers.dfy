/** Option and Result, the failure-compatible wrappers used across the model:
    Option stands for a C# reference that may be null, Result for an
    operation that either produces a value or reports an error. */
module Wrappers {

  datatype Option<+T> = None | Some(value: T) {

    /** The wrapped value, or `default` when there is none. */
    function GetOr(default: T): T {
      match this
      case Some(v) => v
      case None => default
    }
  }

  datatype Result<+R, +E> = Success(value: R) | Failure(error: E)
}
