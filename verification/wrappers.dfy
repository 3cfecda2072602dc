/** Failure-carrying result types used across the model. */
module Wrappers {

  /** A value that may be absent; models the source's `number | null` results. */
  datatype Option<+T> = None | Some(value: T)

  /** Either a computed value or the error the source would throw. */
  datatype Result<+R, +E> = Success(value: R) | Failure(error: E)
}
