/** Option and Result, used for Go's nil pointers and error returns. */
module Wrappers {

  /** `None` stands for a nil pointer, `Some(i)` for a pointer to arena slot `i`. */
  datatype Option<+T> = None | Some(value: T)

  /** A Go `(T, error)` pair where exactly one side is meaningful. */
  datatype Result<+R, +E> = Success(value: R) | Failure(error: E)
}
