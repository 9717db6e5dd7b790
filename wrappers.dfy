/** Option and Result, the two failure-carrying wrappers the model uses. */
module Wrappers {

  /** A value that may be missing: C#'s `null` for a reference. */
  datatype Option<+T> = None | Some(value: T)

  /** The outcome of an operation that may throw: `Err` carries the exception. */
  datatype Result<+T, +E> = Ok(value: T) | Err(error: E)
}
