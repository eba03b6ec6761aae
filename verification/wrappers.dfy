/** Failure-carrying values used where the Java code throws. */
module Wrappers {

  /** `None` stands for a Java exception that aborts the operation. */
  datatype Option<+T> = None | Some(value: T)

  /** An operation that either yields a value or reports a typed error. */
  datatype Result<+T, +E> = Ok(value: T) | Err(error: E)
}
