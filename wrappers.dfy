/** Small result types shared by the models of the Go library and the validators. */
module Wrappers {

  /** A value that may be absent (a Go nil, or a failed conversion). */
  datatype Option<+T> = None | Some(value: T)

  /** The (value, error) pair of a Go call that can fail: exactly one of the
      two is set. */
  datatype Result<+T, +E> = Success(value: T) | Failure(error: E)

  /** How a Go function call ends: it returns a value, or it panics by
      dereferencing nil. */
  datatype Exec<+T> = Returns(value: T) | NilDereference
}
