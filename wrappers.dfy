/** Option and Result values used for the interpreter's nullable links and its failures. */
module Wrappers {

  /** An optional value; `None` stands for a C# null reference. */
  datatype Option<+T> = None | Some(value: T)

  /** The outcome of an operation that either succeeds with a value or fails with an error. */
  datatype Result<+T, +E> = Success(value: T) | Failure(error: E)
}
