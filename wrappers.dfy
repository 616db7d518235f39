/** Failure-carrying result types used where the Python code raises or returns a flag. */
module Wrappers {

  datatype Option<+T> = None | Some(value: T)

  /** A value, or the error that the Python code would have raised instead. */
  datatype Result<+T, +E> = Ok(value: T) | Err(error: E)

  /** Completion of an operation that returns nothing but may raise. */
  datatype Outcome<+E> = Pass | Fail(error: E)
}
