/** The optional value used by the specification functions for "this step failed",
    and the result of a step that fails with a reason. */
module Wrappers {
  datatype Option<+T> = None | Some(value: T)

  datatype Result<+T, +E> = Success(value: T) | Failure(error: E)
}
