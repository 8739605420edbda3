/** Failure-carrying wrappers shared by the model's modules. */
module Wrappers {

  /** A value that may be absent (Python's `None`). */
  datatype Option<+T> = None | Some(value: T)

  /** The value of a computation, or the exception that stopped it. */
  datatype Result<+T, +E> = Ok(value: T) | Err(error: E)
}
