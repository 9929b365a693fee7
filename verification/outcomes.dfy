/** Failure-carrying datatypes used wherever the Python code raises or
    returns `None`. */
module Outcomes {

  /** A value that may be absent (Python's `None`). */
  datatype Option<+T> = None | Some(value: T)

  /** Either a computed value or the error the Python code would raise. */
  datatype Result<+T, +E> = Success(value: T) | Failure(error: E)
}
