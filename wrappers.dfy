/** Optional values: JavaScript's `undefined`/`null` results (a header that is
    not there, an attribute that is missing, a regex that did not match). */
module Wrappers {

  datatype Option<+T> = None | Some(value: T) {

    /** The wrapped value, or `default` when there is none. */
    function GetOr(default: T): T {
      match this
      case Some(v) => v
      case None => default
    }
  }
}
