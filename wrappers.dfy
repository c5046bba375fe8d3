/** Option and Result, standing in for Ruby's nil and for a call that may raise. */
module Wrappers {

  /** A value or nothing (Ruby `nil`). */
  datatype Option<+T> = None | Some(value: T)

  /** The value a call returned, or the failure it raised. */
  datatype Result<+T, +E> = Success(value: T) | Failure(error: E)
}
