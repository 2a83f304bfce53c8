/** Failure-carrying values used throughout the model: a Python `None`
    becomes `None`, a raised `HTTPException` becomes `Err`. */
module Wrappers {

  datatype Option<T> = None | Some(value: T)

  datatype Result<T, E> = Ok(value: T) | Err(error: E)
}
