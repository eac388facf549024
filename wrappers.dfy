/** Option and Result: the shapes in which the model returns what the
    Python code expresses with None and with raised exceptions. */
module Wrappers {

  datatype Option<+T> = None | Some(value: T)

  datatype Result<+R, +E> = Success(value: R) | Failure(error: E)
}
