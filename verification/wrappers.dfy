/** Option and Result values for the error paths the list and stack operations report as strings or dialogs. */
module Wrappers {

  datatype Option<+T> = None | Some(value: T)

  datatype Result<+R, +E> = Success(value: R) | Failure(error: E)
}
