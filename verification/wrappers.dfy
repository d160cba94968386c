/** Small result types shared by the modules of the model. */
module Wrappers {

  /** A value that may be absent: C#'s `null` for a reference. */
  datatype Option<+T> = None | Some(value: T) {
    /** The wrapped value, or `default` when there is none (C#'s `??` operator). */
    function GetOr(default: T): T {
      match this
      case Some(v) => v
      case None => default
    }
  }

  /** The .NET exceptions the modelled code can raise. */
  datatype Exception = IndexOutOfRange

  /** Either a value or the exception that evaluating the expression throws. */
  datatype Outcome<+T> = Ok(value: T) | Throws(exception: Exception)
}
