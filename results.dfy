/** Failure-carrying results: the model's stand-in for the exceptions the Java code throws. */
module Results {

  /** Either a value or the reason the operation raised an exception. */
  datatype Result<+T, +E> = Ok(value: T) | Err(error: E)

  /** A value that may be absent. */
  datatype Option<+T> = Nothing | Some(value: T)
}
