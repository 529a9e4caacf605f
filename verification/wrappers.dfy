/** Optional and fallible results.
    - Option<T> stands for a Java reference that may be null (or an empty java.util.Optional).
    - Result<R, E> stands for a Java call that either returns a value or throws.
 */
module Wrappers {

  /** A value that may be absent: `None` is Java's `null` or `Optional.empty()`. */
  datatype Option<+T> = None | Some(value: T)

  /** A call that returned `value` or threw `error`. */
  datatype Result<+R, +E> = Success(value: R) | Failure(error: E)
}
