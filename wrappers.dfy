/** An optional value and a value-or-error, used for a decision that writes
    nothing and for the exception that `checkAndupdate` catches. */
module Wrappers {

  datatype Option<+T> = None | Some(value: T)

  datatype Result<+R, +E> = Success(value: R) | Failure(error: E)
}
