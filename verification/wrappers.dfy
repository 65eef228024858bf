/** Failure-carrying datatypes used across the model.
    - Option<T> stands for a Java reference that may be null.
    - Result<T, E> stands for an operation that either returns normally or
      throws; the error value says which exception was raised and where. */
module Wrappers {

  /** A value that may be absent (a Java null). */
  datatype Option<+T> = None | Some(value: T)

  /** The outcome of an operation that may throw. */
  datatype Result<+T, +E> = Success(value: T) | Failure(error: E)
}
