/** Option and Result, the two failure-carrying datatypes of the model.
    Option stands for a Java reference that may be null; Result stands for a
    call that either returns a value or throws. */
module Wrappers {

  datatype Option<+T> = None | Some(value: T)

  datatype Result<+R, +E> = Success(value: R) | Failure(error: E)
}
