/** Option and Result types shared by the tree modules. */
module Wrappers {

  /** A possibly absent value; `None` plays the role of a null pointer. */
  datatype Option<+T> = None | Some(value: T)

  /** The outcome of an operation that may fail with an error of type E. */
  datatype Result<+R, +E> = Success(value: R) | Failure(error: E)
}
