/** Option and Result values that stand for Python's None and for exceptions. */
module Outcomes {

  /** A value that may be absent (Python's None). */
  datatype Option<+T> = None | Some(value: T) {

    /** The value, or the given default when there is none (Python's dict.get(key, default)). */
    function GetOr(default: T): T {
      if Some? then value else default
    }
  }

  /** The outcome of a call that may raise: Success carries the returned value,
      Failure the exception. */
  datatype Result<+T, +E> = Success(value: T) | Failure(error: E)
}
