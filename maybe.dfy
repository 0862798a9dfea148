/** Python's `None`-or-value, for optional results and for `dict.get(key,
    default)` on keys that may be absent. */
module Maybe {

  datatype Option<T> = None | Some(value: T) {

    /** `x if x is not None else default`. */
    function GetOr(default: T): T {
      match this
      case Some(v) => v
      case None => default
    }
  }
}
