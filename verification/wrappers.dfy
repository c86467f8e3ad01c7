/** Optional values and success-or-error results, shared by the whole model. */
module Wrappers {

  /** A value that may be absent: TypeScript's optional field or `undefined`. */
  datatype Option<+T> = None | Some(value: T) {

    /** The wrapped value, or `default` when absent. */
    function GetOr(default: T): T {
      match this
      case Some(v) => v
      case None => default
    }
  }

  /** Either a value or an error message. */
  datatype Result<+R> = Success(value: R) | Failure(error: string)
}
