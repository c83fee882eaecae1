/** The optional-value type used across the model. */
module Wrappers {

  /** An optional value: absent, for example, for a missing cookie or a failed host/port split. */
  datatype Option<+T> = None | Some(value: T) {

    /** The wrapped value, or `default` when absent. */
    function GetOr(default: T): (r: T) {
      match this
      case Some(v) => v
      case None => default
    }
  }
}
