/** Success and failure values that stand for the exceptions the toolkit throws and rethrows. */
module Results {

  /** A value that may be absent: the model of a nullable reference. */
  datatype Option<T> = None | Some(value: T)

  /** The outcome of an operation that returns nothing: completion or the exception it raised. */
  datatype Outcome<E> = Success | Failure(error: E)

  /** The outcome of an operation that returns a value. */
  datatype Result<T, E> = Ok(value: T) | Err(error: E)
}
