/** Optional values (SQL NULL, an absent JSON field, a JavaScript `null`) and
    results that either carry a value or an early-return response. */
module Wrappers {

  datatype Option<+T> = None | Some(value: T)

  datatype Result<+T, +E> = Ok(value: T) | Err(error: E)
}
