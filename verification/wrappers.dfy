/** Failure-compatible wrappers shared by the model: an optional value (Java's
    `Optional`) and a result that is either a value or the error that aborted
    the computation (a thrown exception). */
module Wrappers {

  datatype Option<+T> = None | Some(value: T)

  datatype Result<+T, +E> = Success(value: T) | Failure(error: E)
}
