/** Small shared datatypes used by every other module. */
module Basics {

  /** A value that may be absent: a JSON field that is not there, a header
      that was not sent, a null reference in the modelled program. */
  datatype Option<+T> = None | Some(value: T) {

    /** The value, or `default` when absent (the `?? default` of the modelled program). */
    function GetOr(default: T): T {
      match this
      case Some(v) => v
      case None => default
    }
  }
}
