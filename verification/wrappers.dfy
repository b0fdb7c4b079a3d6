/** Failure-carrying datatypes used in place of the exceptions the snippet code raises. */
module Wrappers {

  /** A value that may be absent, such as the position of a substring that does not occur. */
  datatype Option<+T> = None | Some(value: T)

  /** Either a computed value or the error that a Python call would have raised instead. */
  datatype Result<+T, +E> = Success(value: T) | Failure(error: E)
}
