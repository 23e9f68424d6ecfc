/** Failure-compatible wrappers shared by the other modules. */
module Wrappers {

  /** An optional value; `None` plays the role of a nil pointer. */
  datatype Option<+T> = None | Some(value: T)

  /** A value or an error, the shape of Go's `(T, error)` return pairs. */
  datatype Result<+T, +E> = Success(value: T) | Failure(error: E)
}
