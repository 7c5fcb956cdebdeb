/** Optional values and success-or-error results, shared by every module. */
module Wrappers {

  /** An SQL value that may be NULL, a row that may be missing, or an input
      field that may be omitted. */
  datatype Option<T> = None | Some(value: T) {
    function GetOr(default: T): T {
      if Some? then value else default
    }
  }

  /** The outcome of an operation that can fail with an error. */
  datatype Result<T, E> = Success(value: T) | Failure(error: E)
}
