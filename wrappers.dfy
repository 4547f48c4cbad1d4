/** Stock failure-carrying datatypes used across the model. */
module Wrappers {

  /** A value that may be absent: a key missing from a Python dict, a search with no hit. */
  datatype Option<T> = None | Some(value: T)

  /** A computation that either succeeds or stops with the exception it raised. */
  datatype Result<T, E> = Ok(value: T) | Err(error: E)

  function Min(a: int, b: int): int {
    if a <= b then a else b
  }
}
