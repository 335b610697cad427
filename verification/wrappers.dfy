/** Optional values and fallible results, used wherever the modelled code
    returns `null`/`undefined` or throws. */
module Wrappers {

  /** A value that may be absent (`null` or `undefined` in the modelled code). */
  datatype Option<+T> = None | Some(value: T) {

    /** The `??` operator: the value if present, otherwise `default`. */
    function OrElse(default: T): T {
      match this
      case Some(v) => v
      case None => default
    }
  }

  /** The outcome of a call that either returns a value or throws an error. */
  datatype Result<+T, +E> = Ok(value: T) | Err(error: E)
}
