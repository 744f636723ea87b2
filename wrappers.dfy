/** Failure-compatible wrappers used across the model: a nullable value,
    a pass/fail check and a value-or-exception result. */
module Wrappers {

  /** A Kotlin nullable value: `None` stands for `null`. */
  datatype Option<+T> = None | Some(value: T)

  /** The outcome of a call that either returns normally or throws. */
  datatype Outcome<+E> = Pass | Fail(error: E)

  /** Kotlin's `Result<T>`: a value or the exception that was caught. */
  datatype Result<+T, +E> = Success(value: T) | Failure(error: E)
}
