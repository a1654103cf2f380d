/** Optional values and results with an error, used where the scripts throw or leave a value undefined. */
module Wrappers {

  datatype Option<+T> = None | Some(value: T)

  datatype Result<+T, +E> = Success(value: T) | Failure(error: E)
}
