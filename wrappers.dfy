/** Optional values: the model's counterpart of Go's nil-able pointer fields
    (`*string`, `*int`, `*model.People`). */
module Wrappers {

  datatype Option<+T> = None | Some(value: T) {

    /** The value if present, otherwise `default`. */
    function GetOr(default: T): T {
      match this
      case Some(v) => v
      case None => default
    }
  }
}
