/** Failure-carrying values shared by the word-bank, quiz and storage modules. */
module Wrappers {

  datatype Option<T> = None | Some(value: T)

  /** The outcome of an operation that produces a value or fails with an error. */
  datatype Result<T, E> = Ok(value: T) | Err(error: E)

  /** The outcome of an operation that produces nothing (a `Promise<void>`) or fails. */
  datatype Outcome<E> = Pass | Fail(error: E)
}
