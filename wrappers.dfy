/** An optional value: stands for a JavaScript argument or field that may be `undefined`. */
module Wrappers {

  datatype Maybe<+T> = None | Some(value: T) {

    /** The wrapped value, or `default` when there is none (a JavaScript default parameter). */
    function GetOr(default: T): T {
      match this
      case Some(v) => v
      case None => default
    }
  }
}
