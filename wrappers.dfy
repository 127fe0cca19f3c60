/** Optional values and success/failure results, used for absent headers,
    failed URL parses and the error outcomes of acquisition. */
module Wrappers {

  datatype Option<+T> = None | Some(value: T)

  datatype Result<+R, +E> = Success(value: R) | Failure(error: E)
}
