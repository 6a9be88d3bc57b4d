/** Option and Result: `Option` stands for the null returns of the cache's
    get, `Result` for the errors that getNode, set and get throw. */
module Wrappers {

  datatype Option<+T> = None | Some(value: T)

  datatype Result<+T, +E> = Ok(value: T) | Err(error: E)
}
