/** Failure-carrying datatypes shared by the parser and the controller. */
module Wrappers {

  /** A value that may be missing: the result of a conversion that can fail. */
  datatype Option<+T> = None | Some(value: T)

  /** A computation that either produced a value or raised an error. */
  datatype Result<+R, +E> = Success(value: R) | Failure(error: E)

  /** An action with no result that either completed or raised an exception
      whose `str()` is `message`. */
  datatype Outcome = Done | Raised(message: string)
}
