/** Option, Result and Outcome: the shapes used for Java's nullable values,
    for a call that returns a value or throws, and for a void call that may throw. */
module Wrappers {

  datatype Option<+T> = None | Some(value: T)

  datatype Result<+T, +E> = Success(value: T) | Failure(error: E)

  datatype Outcome<+E> = Pass | Fail(error: E)
}
