/** The optional-value datatype shared by the model: a field the record may
    lack (`likeCount`, nested JSON keys) or a value that may be `null`. */
module Wrappers {

  datatype Option<+T> = None | Some(value: T) {

    /** The value, or `default` when absent: the model of JavaScript's `x || default`
        on a field that is either missing or holds a truthy value. */
    function GetOr(default: T): T {
      match this
      case Some(v) => v
      case None => default
    }
  }
}
