/** Small failure-carrying datatypes shared by the other modules. */
module Wrappers {

  /** Ruby's `nil` or a present value. */
  datatype Option<+T> = None | Some(value: T)

  /** A value, or the exception the Ruby code would raise instead of producing one. */
  datatype Result<+T> = Success(value: T) | Failure(error: string)
}
