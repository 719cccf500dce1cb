/** Failure-carrying values shared by the modules of this model. */
module Wrappers {

  /** A value that may be absent: Go's nil pointer or a missing map entry. */
  datatype Option<+T> = None | Some(value: T)

  /** A value or an error: Go's `(T, error)` pair, or a panic turned into data. */
  datatype Result<+T, +E> = Success(value: T) | Failure(error: E)
}
