/** Option and Result wrappers shared by every module of the model. */
module Common {

  /** A value that may be absent (JavaScript's `undefined` / `null`). */
  datatype Option<+T> = None | Some(value: T) {
    function GetOr(default: T): T {
      if Some? then value else default
    }
  }

  /** The outcome of a callable function: a response, or the error it throws. */
  datatype Result<+T, +E> = Success(value: T) | Failure(error: E)
}
