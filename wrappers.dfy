/** Option and Result, used for values the script may not have and for the
    points where it stops early. */
module Wrappers {

  datatype Option<+T> = None | Some(value: T)

  datatype Result<+R, +E> = Success(value: R) | Failure(error: E)
}
