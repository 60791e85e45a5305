/** The optional value used for lookups that may find nothing (a missing key,
    a NaN entry, a substring that does not occur). */
module Wrappers {

  datatype Option<+T> = None | Some(value: T) {

    /** The value held, or `default` when there is none. */
    function GetOr(default: T): T {
      match this
      case Some(v) => v
      case None => default
    }
  }
}
