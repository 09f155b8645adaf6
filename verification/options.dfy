/** The optional value used throughout the model for data that may be absent
    (an upstream row that was not returned, a `NaN`). */
module Options {

  datatype Option<+T> = None | Some(value: T) {

    /** The value if present, otherwise `default`; the model of `x || default`
        and of `!isNaN(x) ? x : default` on an optional number. */
    function GetOr(default: T): T {
      match this
      case Some(v) => v
      case None => default
    }
  }
}
