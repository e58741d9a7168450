/** Optional values and results with an error, used where the source returns
    `None` or raises an exception. */
module Wrappers {

  datatype Option<+T> = None | Some(value: T) {

    /** The wrapped value, or `default` when there is none (Python's `x or default`
        for values that are never falsy, `dict.get(k, default)`). */
    function GetOr(default: T): T {
      match this
      case Some(v) => v
      case None => default
    }
  }

  /** `Ok` is a normal return, `Err` carries the message of the exception the
      source raises. */
  datatype Result<+R, +E> = Ok(value: R) | Err(error: E)
}
