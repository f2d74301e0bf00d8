/** Failure-carrying wrappers used for the source's exceptions and missing values. */
module Results {

  /** A value that may be absent (a decision that never arrived). */
  datatype Option<+T> = None | Some(value: T)

  /** A computed value, or the reason it could not be computed. */
  datatype Result<+T, +E> = Success(value: T) | Failure(error: E)

  /** The outcome of an operation that returns nothing but may be refused. */
  datatype Outcome<+E> = Pass | Fail(error: E)
}
