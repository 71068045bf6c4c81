/** Optional values and success-or-failure results, used for the source's
    `T | null` values and for the operations that throw or reject. */
module Wrappers {

  /** `T | null` in the source: None stands for JavaScript `null`. */
  datatype Option<+T> = None | Some(value: T)

  /** The outcome of an operation that either returns a value or fails with an error. */
  datatype Result<+T, +E> = Success(value: T) | Failure(error: E)
}
