/** Failure-carrying result types shared by the modules of this model. */
module Wrappers {

  /** A value that may be absent: a file that may or may not exist. */
  datatype Option<+T> = None | Some(value: T)

  /** The outcome of an operation that either yields a value or raises. */
  datatype Result<+T, +E> = Ok(value: T) | Err(error: E)
}
