/** Failure-carrying values shared by the rest of the model. */
module Wrappers {

  /** A value that may be missing; Python's `None` is `None` here. */
  datatype Option<+T> = None | Some(value: T)

  /** The outcome of an operation that can raise: `Failure` carries what it raised. */
  datatype Result<+T, +E> = Success(value: T) | Failure(error: E)
}
