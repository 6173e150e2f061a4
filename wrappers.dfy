/** Optional values and results with an error, used wherever the Go code has a nil
    pointer, a missing map entry or an error return. */
module Wrappers {

  datatype Option<+T> = None | Some(value: T)

  datatype Result<+R, +E> = Success(value: R) | Failure(error: E)
}
