/** Failure-carrying wrappers shared by the rest of the model. */
module Wrappers {

  /** A value that may be absent; `None` also stands for JavaScript's
      `undefined` and `NaN` where the source produces them. */
  datatype Option<+T> = None | Some(value: T)

  /** The outcome of an operation that can fail with an error of type `E`. */
  datatype Result<+T, +E> = Success(value: T) | Failure(error: E)
}
