/** Option for the nullable and missing values of PHP arrays and TypeScript objects,
    Result for operations that end in an HTTP error or a validation failure. */
module Wrappers {

  datatype Option<+T> = None | Some(value: T) {

    /** PHP's `??` and TypeScript's `??`: the value, or `default` when absent. */
    function GetOr(default: T): T {
      match this
      case Some(v) => v
      case None => default
    }
  }

  datatype Result<+R, +E> = Success(value: R) | Failure(error: E)
}
