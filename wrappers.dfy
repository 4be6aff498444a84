/** Option stands for a C pointer that may be NULL: None is NULL, Some(v) points at v. */
module Wrappers {

  datatype Option<+T> = None | Some(value: T) {

    /** The value pointed at, or a default when NULL. */
    function GetOr(default: T): T {
      match this
      case Some(v) => v
      case None => default
    }
  }
}
