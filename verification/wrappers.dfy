/** Failure-compatible wrappers shared by the recipe steps. */
module Wrappers {

  /** A value that may be absent (a C# reference that may be null). */
  datatype Option<+T> = None | Some(value: T)

  /** The outcome of an operation that either completes or fails with an error value. */
  datatype Outcome<+E> = Pass | Fail(error: E)

  /** A value or the error that prevented computing it. */
  datatype Result<+T, +E> = Success(value: T) | Failure(error: E)
}
