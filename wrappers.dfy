/** Optional values and results carrying an error, used for PHP's `null`/`false`
    returns and for the exceptions the engines throw. */
module Wrappers {

  datatype Option<+T> = None | Some(value: T)

  datatype Result<+T, +E> = Ok(value: T) | Err(error: E)
}
