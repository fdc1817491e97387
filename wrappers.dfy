/** Optional values and results: the model's stand-in for Go's `(value, error)` returns. */
module Wrappers {

  /** A value that may be absent; `None` also stands for a nil Go error. */
  datatype Option<+T> = None | Some(value: T)

  /** Either a value or an error, for Go functions that return both. */
  datatype Result<+T, +E> = Success(value: T) | Failure(error: E)
}
