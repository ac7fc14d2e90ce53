/** JavaScript's nullish values and thrown errors, as datatypes. */
module Wrappers {

  /** `None` stands for `null` or `undefined`. */
  datatype Option<+T> = None | Some(value: T) {
    /** The `x ?? d` operator. */
    function GetOr(default: T): T {
      match this
      case Some(v) => v
      case None => default
    }
  }

  /** The outcome of a computation that may throw or reject. */
  datatype Result<+T, +E> = Success(value: T) | Failure(error: E)
}
