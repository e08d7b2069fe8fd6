/** Option and Result values used where the modelled Python code returns None
    or raises an exception that its caller catches. */
module Wrappers {

  datatype Option<+T> = None | Some(value: T)

  datatype Result<+T, +E> = Ok(value: T) | Err(error: E)
}
