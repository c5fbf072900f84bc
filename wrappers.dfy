/** Option, Result and Outcome: the failure-carrying values every other module uses. */
module Wrappers {

  datatype Option<T> = None | Some(value: T)

  datatype Result<T, E> = Ok(value: T) | Err(error: E)

  /** The result of an operation that returns nothing on success. */
  datatype Outcome<E> = Pass | Fail(error: E)
}
