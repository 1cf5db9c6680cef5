/** The optional-value wrapper shared by the other modules. */
module Wrappers {

  /** A value that may be absent: JavaScript's `undefined` or an optional field. */
  datatype Option<+T> = None | Some(value: T) {

    /** The wrapped value, or `default` when absent (JavaScript's `??`). */
    function GetOr(default: T): T {
      match this
      case Some(v) => v
      case None => default
    }
  }
}
