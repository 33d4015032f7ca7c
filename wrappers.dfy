/** Option and Result, the two wrappers the model uses for "not found" and
    for validation failures. */
module Wrappers {

  datatype Option<+T> = None | Some(value: T)

  datatype Result<+R, +E> = Success(value: R) | Failure(error: E)
}
