/** Option and Result values: an unknown dimension, and a construction that either
    succeeds or reports the error the layer would raise. */
module Wrappers {

  datatype Option<+T> = None | Some(value: T)

  datatype Result<+T, +E> = Success(value: T) | Failure(error: E)
}
