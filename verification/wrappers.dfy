/** Option and Result datatypes used across the decoder model. */
module Wrappers {

  /** An optional value; `None` stands for Go's zero `time.Time` ("not set yet"). */
  datatype Option<+T> = None | Some(value: T)

  /** Either a value or an error, in place of Go's `(T, error)` pair. */
  datatype Result<+R, +E> = Success(value: R) | Failure(error: E)
}
