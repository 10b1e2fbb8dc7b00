/** Optional values (Kotlin's nullable results) and results with an error
    value (Kotlin's exceptions). */
module Wrappers {

  /** A nullable value: `None` plays the role of Kotlin's `null`. */
  datatype Option<+T> = None | Some(value: T)

  /** A computation that either succeeds with a value or fails with an error. */
  datatype Result<+R, +E> = Success(value: R) | Failure(error: E)
}
