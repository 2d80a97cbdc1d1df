/** Failure-compatible result types used across the model: `None` stands for Python's `None`,
    `Failure` for an exception the source raises. */
module Wrappers {

  datatype Option<+T> = None | Some(value: T)

  datatype Result<+R, +E> = Success(value: R) | Failure(error: E)
}
