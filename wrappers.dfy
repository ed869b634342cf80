/** Values standing in for C#'s null references and thrown exceptions. */
module Wrappers {

  /** A reference that may be null. */
  datatype Option<+T> = None | Some(value: T)

  /** A computation that either returns a value or throws the named error. */
  datatype Result<+T, +E> = Ok(value: T) | Err(error: E)
}
