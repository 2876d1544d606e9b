/** Optional values and results with an error, used for NULL columns,
    absent query parameters and the failures of the handlers. */
module Wrappers {

  datatype Option<+T> = None | Some(value: T)

  datatype Result<+T, +E> = Ok(value: T) | Err(error: E)
}
