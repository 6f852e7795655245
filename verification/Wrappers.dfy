/** Failure-carrying values shared by the modules of this model. */
module Wrappers {

  datatype Option<+T> = None | Some(value: T)

  /** The outcome of an operation that either produces a value or rejects with a message. */
  datatype Result<+T> = Ok(value: T) | Err(error: string)
}
