/** Failure-carrying result types shared by both scripts. */
module Wrappers {

  datatype Option<T> = None | Some(value: T)

  datatype Result<T, E> = Ok(value: T) | Err(error: E)

  /** The outcome of a step that changes state and returns nothing else. */
  datatype Outcome<E> = Pass | Fail(error: E)
}
