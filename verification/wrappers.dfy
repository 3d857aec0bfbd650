/** Failure-carrying values shared by the publish model. */
module Wrappers {

  /** An optional value, standing for Ruby's `nil` or a present value. */
  datatype Option<+T> = None | Some(value: T)

  /** The outcome of a step that can abort the whole run. */
  datatype Result<+T, +E> = Success(value: T) | Failure(error: E)
}
