/** Optional and fallible values shared by every collection operation. */
module Wrappers {

  /** A value that may be absent; `None` stands for the source language's `undefined`. */
  datatype Option<+T> = None | Some(value: T)

  /** The outcome of an operation that signals an error instead of returning a value. */
  datatype Result<+R, +E> = Success(value: R) | Failure(error: E)
}
