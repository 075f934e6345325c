/** Optional values and results with an error, standing for Go's `(T, bool)`
    and `(T, error)` returns. */
module Wrappers {

  datatype Option<+T> = None | Some(value: T)

  datatype Result<+T, +E> = Ok(value: T) | Err(error: E)
}
