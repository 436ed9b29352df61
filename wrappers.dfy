/** Small outcome types shared by the modules of this project. */
module Wrappers {

  /** A value that may be absent (the source's `None`). */
  datatype Option<+T> = None | Some(value: T)

  /** The value an operation returns, or the exception it raises. */
  datatype Result<+R, +E> = Success(value: R) | Failure(error: E)
}
