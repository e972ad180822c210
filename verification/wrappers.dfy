/** Option and Result types shared by the splitter and the player. */
module Wrappers {

  /** A value that may be absent: JavaScript's `undefined` in this model. */
  datatype Option<+T> = None | Some(value: T) {

    /** The wrapped value, or `default` when absent. */
    function GetOr(default: T): T {
      match this
      case Some(v) => v
      case None => default
    }
  }

  /** Either a result or the error an operation throws. */
  datatype Result<+T, +E> = Ok(value: T) | Err(error: E)
}
