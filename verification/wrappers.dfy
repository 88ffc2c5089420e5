/** Optional values: the model's rendering of JavaScript `null`/`undefined`
    and Python `None` for nullable fields. */
module Wrappers {

  datatype Option<+T> = None | Some(value: T) {

    /** Returns the value held in Some, or the given default for None. */
    function GetOr(default: T): T {
      match this
      case Some(v) => v
      case None => default
    }
  }
}
