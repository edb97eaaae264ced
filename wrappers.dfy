/** Nullable values of the source (`string?`, `short?`, `bool?`, a missing row) as an explicit option. */
module Wrappers {

  datatype Option<+T> = None | Some(value: T) {

    /** `x ?? d` in the source. */
    function GetOr(default: T): T {
      match this
      case Some(v) => v
      case None => default
    }
  }
}
