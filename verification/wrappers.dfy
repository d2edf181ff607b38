/** Failure-compatible wrappers standing in for C# `null` and thrown exceptions. */
module Wrappers {

  /** A value that may be absent (a C# reference that may be `null`). */
  datatype Option<+T> = None | Some(value: T)

  /** Either a value or the error a C# method would have thrown instead. */
  datatype Result<+R, +E> = Success(value: R) | Failure(error: E)
}
