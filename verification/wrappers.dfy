/** Failure-carrying values used where the source returns null or throws. */
module Wrappers {

  /** A value that may be absent (a C# nullable). */
  datatype Option<+T> = None | Some(value: T)

  /** Either a value or the error the source would have thrown instead. */
  datatype Result<+T, +E> = Success(value: T) | Failure(error: E)
}
