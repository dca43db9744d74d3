/** Failure-compatible wrappers shared by every module of the model. */
module Wrappers {

  /** A possibly absent value; `None` stands for the C NULL pointer. */
  datatype Option<+T> = None | Some(value: T)

  /** The C convention "return 1 / push an error and return 0", as a value. */
  datatype Result<+R, +E> = Success(value: R) | Failure(error: E)
}
