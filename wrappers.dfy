/** Failure-carrying results shared by every module of the model. */
module Wrappers {

  /** A value that may be absent (Go's `nil` pointer or a missing map entry). */
  datatype Option<+T> = None | Some(value: T)

  /** The `(value, error)` pair Go functions return: exactly one side is meaningful. */
  datatype Result<+R, +E> = Success(value: R) | Failure(error: E)

  /** Bytes as Go's `[]byte` holds them. */
  type Bytes = seq<bv8>
}
