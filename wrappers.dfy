/** Optional values and results with an error, used for the lookups and the
    failure path of the surface-set builder. */
module Wrappers {

  datatype Option<+T> = None | Some(value: T)

  datatype Result<+R, +E> = Success(value: R) | Failure(error: E)
}
