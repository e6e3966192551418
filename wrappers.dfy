/** Failure-compatible wrappers shared by the engine and the authorizer. */
module Wrappers {

  /** An optional value, the model of a C# reference that may be null. */
  datatype Option<+T> = None | Some(value: T)

  /** The outcome of an operation that may raise an exception instead of returning. */
  datatype Result<+T, +E> = Success(value: T) | Failure(error: E)
}
