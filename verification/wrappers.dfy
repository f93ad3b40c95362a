/** Optional values and success/failure outcomes, used in place of the
    exceptions the buffer manager and its hash table throw. */
module Wrappers {

  /** The result of a hash-table lookup: absent keys are a normal outcome. */
  datatype Option<+T> = None | Some(value: T)

  /** The outcome of a buffer-manager operation that may throw. */
  datatype Result<+R, +E> = Success(value: R) | Failure(error: E)
}
