/** Failure-carrying values shared by the modules of the model. */
module Wrappers {

  /** A value that may be absent: Python's `None` or a value. */
  datatype Option<+T> = None | Some(value: T)

  /** The outcome of an operation that can raise: its value, or the message of the exception. */
  datatype Result<+T> = Success(value: T) | Failure(error: string)
}
