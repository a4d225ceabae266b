/** Option and Result values standing in for Python's `None` and for the
    exceptions the credential-file code raises. */
module Wrappers {

  datatype Option<+T> = None | Some(value: T)

  datatype Result<+R, +E> = Success(value: R) | Failure(error: E)
}
