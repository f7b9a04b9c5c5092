/** The optional value used wherever the source reads something that may be
    absent: a missing registry entry, a missing cache record, no matching index. */
module Wrappers {

  datatype Option<+T> = None | Some(value: T) {

    /** The value, or `default` when there is none. */
    function GetOr(default: T): T {
      match this
      case Some(v) => v
      case None => default
    }
  }
}
