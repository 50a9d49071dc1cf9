/** The optional-value type used throughout the model. */
module Wrappers {

  /** Python's `None`-or-value, as a datatype. */
  datatype Option<+T> = None | Some(value: T) {

    /** The wrapped value, or `default` when there is none. */
    function GetOr(default: T): T {
      match this
      case Some(v) => v
      case None => default
    }
  }
}
