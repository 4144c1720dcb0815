/** Wrappers for nullable request fields and for the outcomes of the service operations. */
module Wrappers {

  /** A value that may be absent: the model of a nullable request field. */
  datatype Option<+T> = None | Some(value: T) {

    /** The wrapped value, or `default` when the field was left null. */
    function GetOr(default: T): T {
      match this
      case Some(v) => v
      case None => default
    }
  }

  /** The outcome of one service call: a value, or the error it was rejected with. */
  datatype Result<+R, +E> = Success(value: R) | Failure(error: E)
}
