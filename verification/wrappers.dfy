/** Failure-carrying datatypes shared by every module of the model, and the
    byte type used wherever the program handles `bytes`. */
module Wrappers {

  /** A value that may be absent: Python's `None` or a present value. */
  datatype Option<+T> = None | Some(value: T)

  /** The outcome of an operation that may raise: a value, or the error it raised. */
  datatype Result<+R, +E> = Success(value: R) | Failure(error: E)

  /** One octet of a Python `bytes` object. */
  type byte = b: int | 0 <= b < 256
}
