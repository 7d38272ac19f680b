/** Failure-carrying wrappers used across the model: `Option` stands for a
    nullable reference or a missing value, `Result` for an operation that can
    throw. */
module Wrappers {

  datatype Option<+T> = None | Some(value: T)

  datatype Result<+T, +E> = Success(value: T) | Failure(error: E)
}
