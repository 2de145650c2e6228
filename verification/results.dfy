/** Failure-carrying values used across the model: an optional value, and the
    outcome of an operation that the Python code can abort with an
    exception. */
module Results {

  /** A value that may be absent (Python's `None`). */
  datatype Option<+T> = None | Some(value: T)

  /** The outcome of an operation that either produces a value or raises. */
  datatype Result<+T, +E> = Ok(value: T) | Err(error: E)
}
