/** Optional values and results, standing for JavaScript's `undefined` and thrown errors. */
module Wrappers {

  /** `None` is JavaScript's `undefined`. */
  datatype Option<+T> = None | Some(value: T)

  /** The outcome of an evaluation that may throw. */
  datatype Result<+R, +E> = Success(value: R) | Failure(error: E)
}
