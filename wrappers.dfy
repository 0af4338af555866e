/** Option and Result values, used for the pattern matches that may fail and
    for the tool's fatal error exit. */
module Wrappers {

  datatype Option<+T> = None | Some(value: T)

  datatype Result<+T, +E> = Success(value: T) | Failure(error: E)
}
