/** Failure-carrying values standing in for the exceptions the record manager raises. */
module Results {

  /** The outcome of a check that only raises: it passes, or fails with an error. */
  datatype Outcome<+E> = Pass | Fail(error: E)

  /** The outcome of a check that also returns a value. */
  datatype Result<+T, +E> = Success(value: T) | Failure(error: E)

  datatype Option<+T> = None | Some(value: T)
}
