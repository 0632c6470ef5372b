/** The optional value the engine returns where the JavaScript code returns `null`
    (or `NaN`, for `parseInt`). */
module Wrappers {

  datatype Option<+T> = None | Some(value: T) {

    /** The value if present, otherwise `default` (JavaScript's `x == null ? d : x`). */
    function GetOr(default: T): T {
      match this
      case Some(v) => v
      case None => default
    }
  }
}
