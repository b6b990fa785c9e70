/** Option and Result, the failure-carrying values used across the model. */
module Wrappers {

  datatype Option<+T> = None | Some(value: T)

  /** The outcome of an operation that may throw: `Failure` carries the
      exception's message, which the JVM allows to be null (`None`). */
  datatype Result<+T> = Success(value: T) | Failure(message: Option<string>)
}
