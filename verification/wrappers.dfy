/** Failure-carrying datatypes: `Option` for the nullable values of the
    gateway (a missing header value, a null access token), `Result` for a
    collaborator call that either returns or throws, and `Outcome` for a
    check that either passes or raises. */
module Wrappers {

  /** A nullable value: `None` stands for C#'s `null`. */
  datatype Option<+T> = None | Some(value: T)

  /** A call that returned a value or raised an error. */
  datatype Result<+R, +E> = Success(value: R) | Failure(error: E)

  /** A call with no value that either completed or raised an error. */
  datatype Outcome<+E> = Pass | Fail(error: E)
}
