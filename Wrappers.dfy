/** Option and Result, for the JavaScript values that may be missing (NaN,
    an unset environment variable) and for the thrown errors of the helpers. */
module Wrappers {

  datatype Option<+T> = None | Some(value: T)

  datatype Result<+R, +E> = Success(value: R) | Failure(error: E)
}
