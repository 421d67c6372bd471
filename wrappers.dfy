/** Small failure-carrying datatypes shared by the other modules. */
module Wrappers {

  /** A value that may be absent: C#'s `null` for strings and references. */
  datatype Option<+T> = None | Some(value: T) {
    function GetOr(default: T): T {
      match this
      case Some(v) => v
      case None => default
    }
  }
}
