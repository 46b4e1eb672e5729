/** Failure-carrying results, standing in for the exceptions the engine throws. */
module Wrappers {

  datatype Option<+T> = None | Some(value: T)

  datatype Result<+T, +E> = Ok(value: T) | Err(error: E)

  /** The unchecked exception Java raises for an index outside an array or the grid. */
  datatype IndexError = IndexOutOfBounds
}
