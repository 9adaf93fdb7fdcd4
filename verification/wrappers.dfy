/** Result types used to model the exceptions of the store. */
module Wrappers {

  datatype Option<+T> = None | Some(value: T)

  /** An operation's value, or the error it raised. */
  datatype Result<+R, +E> = Success(value: R) | Failure(error: E)

  /** An operation that returns nothing: it either passes or raises an error. */
  datatype Outcome<+E> = Pass | Fail(error: E)
}
