/** Optional values and results, standing in for Java's `null` and for thrown exceptions. */
module Wrappers {

  /** A value that may be absent (a Java reference that may be `null`). */
  datatype Option<+T> = None | Some(value: T)

  /** A computed value, or the exception that was thrown instead. */
  datatype Result<+T, +E> = Success(value: T) | Failure(error: E)

  /** The end of a `void` call: it returned normally, or it threw. */
  datatype Outcome<+E> = Pass | Fail(error: E)
}
