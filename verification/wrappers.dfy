/** Option and Result values used where the script checks for a missing
    value or catches an exception. */
module Wrappers {

  datatype Option<+T> = None | Some(value: T)

  /** Outcome of a call into a foreign service: its value, or the error it raised. */
  datatype Result<+R, +E> = Success(value: R) | Failure(error: E)
}
