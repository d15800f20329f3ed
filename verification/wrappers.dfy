/** Optional values and error-carrying results, standing in for Kotlin's
    nullable types and Java's checked exceptions. */
module Wrappers {

  /** A value that may be absent (a Kotlin `T?`). */
  datatype Option<+T> = None | Some(value: T) {

    /** The value, or `default` when absent (the `?:` / `getX(key, default)` idiom). */
    function GetOr(default: T): T {
      match this
      case Some(v) => v
      case None => default
    }
  }

  /** The outcome of an operation that can throw. */
  datatype Result<+T, +E> = Ok(value: T) | Err(error: E)
}
