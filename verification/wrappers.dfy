/** Failure-carrying values used for the loaders' thrown errors and absent fields. */
module Wrappers {

  /** A value that may be absent (`undefined` / `null` in the source). */
  datatype Option<+T> = None | Some(value: T)

  /** Either a value or the error a call would have thrown. */
  datatype Result<+R, +E> = Success(value: R) | Failure(error: E)

  /** A call that either completes or throws an error, and returns nothing. */
  datatype Outcome<+E> = Pass | Fail(error: E)
}
