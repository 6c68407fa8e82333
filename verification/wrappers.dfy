/** Option and Result values standing in for the nil pointers and
    `(value, error)` returns of the modelled code. */
module Wrappers {

  /** A value that may be absent (a nil pointer in the modelled code). */
  datatype Option<+T> = None | Some(value: T)

  /** Either a computed value or an error describing why there is none. */
  datatype Result<+T, +E> = Success(value: T) | Failure(error: E)
}
