/** Failure-compatible wrappers used across the model. */
module Wrappers {

  /** A value that may be absent. */
  datatype Option<+T> = None | Some(value: T)

  /** The outcome of decoding: a value, or a description of why decoding failed. */
  datatype Result<+T> = Success(value: T) | Failure(error: string)
}
