/** Option and Result, the failure-carrying values used for the source's
    exceptions and for Python's `None`. */
module Wrappers {

  datatype Option<+T> = None | Some(value: T)

  datatype Result<+R, +E> = Success(value: R) | Failure(error: E)
}
