/** Failure-carrying datatypes shared by every module of the model. */
module Wrappers {

  /** A value that may be absent: the model's stand-in for Python's `None`. */
  datatype Option<+T> = None | Some(value: T)

  /** The outcome of an operation that may raise: `Err` carries the kind of exception. */
  datatype Result<+T, +E> = Ok(value: T) | Err(error: E)
}
