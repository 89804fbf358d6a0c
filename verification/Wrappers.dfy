/** A value that may be missing. */
module Wrappers {
  datatype Option<T> = None | Some(value: T) {
    function GetOr(other: Option<T>): Option<T> {
      if Some? then this else other
    }
  }
}
