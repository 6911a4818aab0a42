/** Failure-carrying datatypes used in place of the engine's C++ exceptions. */
module Wrappers {

  /** A value that may be absent. */
  datatype Option<+T> = None | Some(value: T)

  /** Either the value an operation computed, or the error it raised. */
  datatype Result<+T, +E> = Ok(value: T) | Err(error: E)
}
