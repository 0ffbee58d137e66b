/** Option and Result datatypes used across the model. */
module Wrappers {

  /** A value that may be missing, as Python's `dict.get` returns `None` for an absent key. */
  datatype Option<+T> = None | Some(value: T)

  /** The outcome of an operation that either produces a value or stops with an error. */
  datatype Result<+R, +E> = Success(value: R) | Failure(error: E)
}
