/** Optional values and fallible results, used for elements that may be
    missing from a listing page and for page requests that may fail. */
module Wrappers {

  datatype Option<+T> = None | Some(value: T) {
    /** The value if present, `default` otherwise. */
    function GetOr(default: T): T {
      match this
      case Some(v) => v
      case None => default
    }
  }

  datatype Result<+T> = Ok(value: T) | Err(error: string)
}
