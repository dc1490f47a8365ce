/**
 The two small failure-carrying datatypes the model uses: `Option` stands for a
 Java reference that may be null, `Result` for a call that may throw.
 */
module Wrappers {

  /** `None` is Java's null. */
  datatype Option<+T> = None | Some(value: T) {

    /** The value, or `default` when it is null. */
    function GetOr(default: T): T {
      match this
      case Some(v) => v
      case None => default
    }
  }

  /** `Failure` is an exception raised by the modelled code. */
  datatype Result<+R, +E> = Success(value: R) | Failure(error: E)
}
