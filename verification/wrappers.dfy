/** Failure-carrying result types shared by every module of the model. */
module Wrappers {

  /** An optional value: the source's `None` for an unloaded network. */
  datatype Option<+T> = None | Some(value: T)

  /** The outcome of an operation that can raise: a value, or the error it raised. */
  datatype Result<+T, +E> = Success(value: T) | Failure(error: E)
}
