/** Optional values and success-or-failure results, the two shapes the
    modelled services use for "possibly undefined" state and for typed
    failures of an effect.
 */
module Wrappers {

  /** A value that may be absent. */
  datatype Option<+T> = None | Some(value: T)

  /** The outcome of an effect that either succeeds with a value or fails
      with a typed error. */
  datatype Result<+R, +E> = Success(value: R) | Failure(error: E)
}
