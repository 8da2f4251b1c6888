/** Optional values, results of throwing calls, and outcomes of throwing calls
    that return nothing. Swift's `T?`, `throws -> T` and `throws` map onto them. */
module Wrappers {

  /** Swift's `Optional<T>`: `nil` is `None`. */
  datatype Option<+T> = None | Some(value: T)

  /** The outcome of a Swift function declared `throws -> R`. */
  datatype Result<+R, +E> = Success(value: R) | Failure(error: E)

  /** The outcome of a Swift function declared `throws` that returns nothing. */
  datatype Outcome<+E> = Pass | Fail(error: E)
}
