/** Option and Result: Java's nullable references and Optional become
    Option, and an exception thrown by a call becomes a Failure. */
module Wrappers {

  datatype Option<+T> = None | Some(value: T)

  datatype Result<+R, +E> = Success(value: R) | Failure(error: E)
}
