/** Optional values and results with an error, used for nullable columns,
    optional JSON fields and the service's error replies. */
module Wrappers {

  datatype Option<+T> = None | Some(value: T)

  datatype Result<+R, +E> = Success(value: R) | Failure(error: E)
}
