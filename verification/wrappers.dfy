/** Optional values and fallible results, used wherever the TypeScript code returns
    `undefined`, `null` or a rejected promise. */
module Wrappers {

  /** A value that may be absent (TypeScript's `undefined` / `null`). */
  datatype Option<+T> = None | Some(value: T) {

    /** The wrapped value, or `default` when absent (JavaScript's `?? default`). */
    function GetOr(default: T): T {
      match this
      case Some(v) => v
      case None => default
    }
  }

  /** The outcome of an operation that can throw: a value or an error. */
  datatype Result<+T, +E> = Ok(value: T) | Err(error: E)
}
