/** Option and Result: the absent value and the raised exception of the scripts. */
module Wrappers {

  datatype Option<+T> = None | Some(value: T)

  /** Success carries the value a Python call returns; Failure carries what made it raise. */
  datatype Result<+T, +E> = Success(value: T) | Failure(error: E)
}
