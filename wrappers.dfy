/** Option and Result, for lookups that may miss and operations that may raise. */
module Wrappers {

  datatype Option<+T> = None | Some(value: T)

  /** `Failure` carries the message of the exception the source raises. */
  datatype Result<+T> = Success(value: T) | Failure(error: string)
}
