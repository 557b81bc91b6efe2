/** Optional values, and results that are a value or an error. */
module Wrappers {

  /** A value that may be absent, such as the outcome of a numeric parse. */
  datatype Option<+T> = None | Some(value: T)

  /** Either a value or an error, the way a Go function returns `(value, err)`. */
  datatype Result<+R, +E> = Success(value: R) | Failure(error: E)
}
