/** Option and Result, used for the optional breach callback and for the
    exceptions the breach lookup raises. */
module Wrappers {

  datatype Option<+T> = None | Some(value: T)

  datatype Result<+R, +E> = Success(value: R) | Failure(error: E)
}
