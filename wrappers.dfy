/** Option and Result, used for the source's null fields and thrown exceptions. */
module Wrappers {

  /** A value that may be absent (a C# `null` field). */
  datatype Option<+T> = None | Some(value: T)

  /** Either a normal result or the exception the source throws instead. */
  datatype Result<+R, +E> = Success(value: R) | Failure(error: E)
}
