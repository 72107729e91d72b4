/** Absence and failure as values, in place of Java's `null` results and exceptions. */
module Wrappers {

  /** A value that may be absent: `None` stands for a `null` return. */
  datatype Option<+T> = None | Some(value: T)

  /** The outcome of an operation that may throw: `Failure` carries the exception. */
  datatype Result<+T, +E> = Success(value: T) | Failure(error: E)
}
