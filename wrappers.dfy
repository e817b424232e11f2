/** Optional values and success/failure results, standing in for Java's null and exceptions. */
module Wrappers {

  /** A value that may be absent: `None` is Java's null. */
  datatype Option<+T> = None | Some(value: T)

  /** The outcome of an operation that returns a value or throws. */
  datatype Result<+R, +E> = Success(value: R) | Failure(error: E)

  /** The outcome of an operation that returns nothing or throws. */
  datatype Outcome<+E> = Pass | Fail(error: E)
}
