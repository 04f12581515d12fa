/** Small shared vocabulary: an optional value, used wherever the source
    reads a field that may be `undefined` or `null`. */
module Prelude {

  datatype Option<+T> = None | Some(value: T) {

    /** The wrapped value, or `default` when there is none. */
    function GetOr(default: T): T {
      match this
      case Some(v) => v
      case None => default
    }
  }
}
