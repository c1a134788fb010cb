/** Optional values and results with an error: how the model reports the
    cases where the source throws or leaves a value unset. */
module Wrappers {
  datatype Option<T> = None | Some(value: T)

  datatype Result<T, E> = Ok(value: T) | Err(error: E)
}
