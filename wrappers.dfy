/** Option and Result, the shapes every fallible operation of the model returns. */
module Wrappers {

  datatype Option<+T> = None | Some(value: T)

  /** A value, or the error the source would have raised instead of returning it. */
  datatype Result<+R, +E> = Success(value: R) | Failure(error: E)
}
