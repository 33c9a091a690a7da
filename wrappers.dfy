/** Optional values and results with an error case, used for the loader's
    nullable fields and for the exceptions its operations raise. */
module Wrappers {

  datatype Option<+T> = None | Some(value: T)

  datatype Result<+R, +E> = Success(value: R) | Failure(error: E)
}
