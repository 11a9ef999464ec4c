/** Failure-carrying datatypes used throughout the model. */
module Wrappers {

  /** A value that may be missing: pandas' NaN/None cell, an unparseable field. */
  datatype Option<+T> = None | Some(value: T)

  /** The outcome of an operation that either succeeds or raises. */
  datatype Result<+T, +E> = Success(value: T) | Failure(error: E)
}
