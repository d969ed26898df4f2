/** Optional values and results with an error, used for parameters that may be
    absent and for the exceptions the client raises. */
module Wrappers {

  datatype Option<+T> = None | Some(value: T)

  datatype Result<+T, +E> = Ok(value: T) | Err(error: E)
}
