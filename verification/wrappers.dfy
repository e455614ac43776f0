/** Failure-carrying result types used across the model. */
module Wrappers {

  /** An optional value: a regex that found nothing, a record with no problem id. */
  datatype Option<+T> = None | Some(value: T)

  /** The outcome of an operation that can fail with a reportable error. */
  datatype Result<+R, +E> = Success(value: R) | Failure(error: E)
}
