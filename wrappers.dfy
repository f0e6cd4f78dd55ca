/** Option stands for a value that may be missing (the engine's NaN); Result for a value or an error (an exception). */
module Wrappers {

  datatype Option<+T> = None | Some(value: T)

  datatype Result<+T, +E> = Success(value: T) | Failure(error: E)
}
