/** Failure-carrying return values, standing in for Java's null and exceptions. */
module Wrappers {

  /** A value that may be absent (Java's null). */
  datatype Option<+T> = None | Some(value: T)

  /** Either a result or the exception the source would throw. */
  datatype Result<+R, +E> = Success(value: R) | Failure(error: E)

  /** The outcome of an operation that returns nothing: it completed, or threw error. */
  datatype Outcome<+E> = Pass | Fail(error: E)
}
