/** Failure-compatible wrapper types shared by the model: `Option` stands for a
    C# nullable reference (`string?`) or a value that may be absent. */
module Wrappers {

  datatype Option<+T> = None | Some(value: T) {

    /** The wrapped value, or `default` for `None` (C#'s `??`). */
    function GetOr(default: T): T {
      match this
      case Some(v) => v
      case None => default
    }
  }
}
