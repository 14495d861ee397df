/** Failure-compatible wrappers shared by the other modules. */
module Wrappers {

  /** An optional value: the model of a Java reference that may be null. */
  datatype Option<+T> = None | Some(value: T)

  /** The outcome of an operation that may throw: `Err` names the exception. */
  datatype Result<+T, +E> = Ok(value: T) | Err(error: E)
}
