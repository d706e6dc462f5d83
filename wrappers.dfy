/** Option and Result, for values the sources return as `None` and for the
    exceptions they raise. */
module Wrappers {

  datatype Option<T> = None | Some(value: T)

  datatype Result<T, E> = Ok(value: T) | Err(error: E)
}
