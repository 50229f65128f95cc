/** Failure-carrying result types used throughout the model. */
module Wrappers {

  /** `Option<T>` of the source: a value or nothing. */
  datatype Option<+T> = None | Some(value: T)

  /** `Result<(), E>` of the source: validation passed, or failed with an error. */
  datatype Outcome<+E> = Pass | Fail(error: E)

  /** `Result<T, E>` of the source. */
  datatype Result<+T, +E> = Ok(value: T) | Err(error: E)

  /** The result of a call that may panic instead of returning. */
  datatype Checked<+T> = Value(value: T) | Panic
}
