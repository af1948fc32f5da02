/** Option and Result, shared by the model's modules. */
module Wrappers {

  datatype Option<+T> = None | Some(value: T)

  /** The value of a Python call that either returns or raises. */
  datatype Result<+T, +E> = Success(value: T) | Failure(error: E)
}
