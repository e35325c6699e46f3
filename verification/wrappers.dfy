/** Optional values and results with an error, used for Python's `None` returns and
    for the exceptions the store's operations can raise. */
module Wrappers {

  datatype Option<+T> = None | Some(value: T)

  datatype Result<+T, +E> = Ok(value: T) | Err(error: E)
}
