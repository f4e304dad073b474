/** Failure-carrying values used across the model. */
module Wrappers {

  /** An optional value, standing for Python's `None` or a missing match. */
  datatype Option<+T> = None | Some(value: T)

  /** A value or an error, standing for a raised error or a `sys.exit` with a message. */
  datatype Result<+T, +E> = Ok(value: T) | Err(error: E)
}
