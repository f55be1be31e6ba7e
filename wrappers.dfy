/** Option and Result, the two failure-carrying types the rest of the model uses. */
module Wrappers {

  /** A value that may be absent: Python's `None` or a value. */
  datatype Option<+T> = None | Some(value: T)

  /** The outcome of an operation that either produces a value or reports an error. */
  datatype Result<+R, +E> = Ok(value: R) | Err(error: E)
}
