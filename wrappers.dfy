/** Option and Result values: the model's stand-ins for Python's falsy
    "no filter" arguments and for the RuntimeError a call can raise. */
module Wrappers {

  datatype Option<+T> = None | Some(value: T)

  datatype Result<+T, +E> = Success(value: T) | Failure(error: E)
}
