/** Option and Result values used for the source's optional values and raised errors. */
module Wrappers {

  datatype Option<+T> = None | Some(value: T)

  /** A value, or the error the source raises instead of returning one. */
  datatype Result<+T, +E> = Success(value: T) | Failure(error: E)

  /** Success or the error the source raises; used where the source returns nothing. */
  datatype Outcome<+E> = Pass | Fail(error: E)
}
