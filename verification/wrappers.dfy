/** Option and Result, the two failure-carrying wrappers the model uses. */
module Wrappers {

  /** A value that may be absent, standing for JavaScript's `undefined` or an unreadable file. */
  datatype Option<+T> = None | Some(value: T)

  /** The outcome of an operation that either produces a value or aborts with an error. */
  datatype Result<+T, +E> = Ok(value: T) | Err(error: E)
}
