/** Failure-carrying values shared by the other modules: a missing value (the source's `None`) and the
    outcome of an operation that may raise. */
module Wrappers {
  datatype Option<+T> = None | Some(value: T)

  datatype Result<+T, +E> = Ok(value: T) | Err(error: E)
}
