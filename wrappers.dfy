/** Failure-carrying result types used in place of Java's null and exceptions. */
module Wrappers {

  /** A value that may be absent (Java's null). */
  datatype Option<+T> = None | Some(value: T)

  /** The outcome of a call that returns a value or throws. */
  datatype Result<+T, +E> = Success(value: T) | Failure(error: E)

  /** The outcome of a `void` call: it returns normally or throws. */
  datatype Outcome<+E> = Pass | Fail(error: E)
}
