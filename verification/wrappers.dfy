/** Failure-carrying datatypes shared by the index and the storage layers. */
module Wrappers {

  /** An optional value: the model's stand-in for a C# `null` result. */
  datatype Option<+T> = None | Some(value: T)

  /** A value or the error that stopped the computation (the model's stand-in for an exception). */
  datatype Result<+T, +E> = Success(value: T) | Failure(error: E)
}
