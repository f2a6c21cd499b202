/** Failure-carrying results: the model's stand-in for the exceptions the
    bot lets propagate (KeyError, IndexError). */
module Wrappers {

  datatype Option<+T> = None | Some(value: T)

  datatype Result<+T, +E> = Success(value: T) | Failure(error: E)
}
