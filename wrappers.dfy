/** Option and Result values used for the engine's fallible steps. */
module Wrappers {

  datatype Option<+T> = None | Some(value: T)

  /** The outcome of a step that either produces a value or fails with a reason. */
  datatype Result<+T, +E> = Ok(value: T) | Fail(error: E)
}
