/** Optional values and results with an error, the two shapes the genesis
    setup uses for values that may be absent and operations that may fail. */
module Wrappers {

  /** A value that may be absent: Go's nil slice or nil interface. */
  datatype Option<+T> = None | Some(value: T)

  /** Either a value or the error that replaced it: Go's `(value, error)` pair. */
  datatype Result<+R, +E> = Success(value: R) | Failure(error: E)
}
