/** Failure-compatible wrappers used across the model: a Go `nil`-able value
    becomes an Option, a `(value, error)` pair a Result. */
module Wrappers {

  datatype Option<+T> = None | Some(value: T)

  datatype Result<+T, +E> = Success(value: T) | Failure(error: E)
}
