/** Optional values and results with an error, standing for the source's `undefined`/`NaN`/"not found" values and thrown errors. */
module Wrappers {

  datatype Option<+T> = None | Some(value: T)

  datatype Result<+T, +E> = Ok(value: T) | Err(error: E)
}
