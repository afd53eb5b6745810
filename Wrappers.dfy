/** Option and Result: the model's stand-ins for Python's `None` and for
    exceptions that a caller either propagates or catches. */
module Wrappers {

  datatype Option<+T> = None | Some(value: T)

  datatype Result<+R, +E> = Success(value: R) | Failure(error: E)
}
