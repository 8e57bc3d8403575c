/** Optional values and fallible results, used for absent JSON fields and for the
    error paths of the loader and of the HTTP handler. */
module Wrappers {

  datatype Option<+T> = None | Some(value: T)

  datatype Result<+T, +E> = Success(value: T) | Failure(error: E)
}
