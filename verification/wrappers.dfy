/** The optional value used wherever the dashboard holds `T | null`, an
    optional record field (`field?: T`) or the result of `Array.prototype.find`. */
module Wrappers {

  datatype Option<+T> = None | Some(value: T) {

    /** The value if present, otherwise the given default. */
    function GetOr(default: T): T {
      match this
      case Some(v) => v
      case None => default
    }
  }
}
