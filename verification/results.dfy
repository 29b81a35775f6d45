/** Failure-carrying datatypes for the JSON accessors and the node loaders. */
module Results {

  /** A value that may be absent. */
  datatype Option<+T> = None | Some(value: T)

  /** A value or the error that prevented computing it. */
  datatype Result<+T, +E> = Ok(value: T) | Err(error: E)

  /** Whether an operation that is run for its effect completed, and if not, why. */
  datatype Outcome<+E> = Pass | Fail(error: E)
}
