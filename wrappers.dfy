/** Option and Result, shared by the model. */
module Wrappers {

  /** A value that may be undefined: a pandas NaN entry becomes None. */
  datatype Option<+T> = None | Some(value: T)

  /** Either a computed value or the error the source raises instead. */
  datatype Result<+R, +E> = Success(value: R) | Failure(error: E)
}
