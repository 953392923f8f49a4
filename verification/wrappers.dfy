/** Failure-compatible datatypes used throughout the model.
    - Option<T> models a Python function that may fall off its end and return None.
    - Result<T, E> models a Python function that either returns a value or raises. */
module Wrappers {

  datatype Option<+T> = None | Some(value: T)

  datatype Result<+T, +E> = Success(value: T) | Failure(error: E)
}
