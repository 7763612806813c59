/** Failure-carrying results shared by the models of the two services. */
module Wrappers {

  /** A value that may be absent: the model of a nullable Java reference. */
  datatype Option<+T> = None | Some(value: T)

  /** The outcome of an operation that returns a value or throws. */
  datatype Result<+T, +E> = Ok(value: T) | Err(error: E)

  /** The outcome of a check or command that returns nothing or throws. */
  datatype Outcome<+E> = Pass | Fail(error: E)
}
