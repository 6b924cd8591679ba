/** Optional values and results with an error, used wherever the dashboard's
    code has a missing value (NaN, None) or raises. */
module Wrappers {

  datatype Option<+T> = None | Some(value: T)

  datatype Result<+R, +E> = Ok(value: R) | Err(error: E)
}
