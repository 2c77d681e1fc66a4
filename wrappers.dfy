/** Failure-carrying datatypes shared by the model. */
module Wrappers {

  /** A value that may be absent (JavaScript's `undefined`). */
  datatype Option<+T> = None | Some(value: T)

  /** The outcome of an operation that either yields a value or throws an error with a message. */
  datatype Result<+T> = Ok(value: T) | Err(message: string)
}
