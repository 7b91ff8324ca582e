/**
 Failure-aware values shared by the whole model: an optional value (JavaScript's
 `undefined` versus a present value), a result that either carries a value or
 the reason a step of the pipeline rejected, and the kinds of rejection.
 */
module Results {

  /** A value that may be absent; `None` plays the part of `undefined`. */
  datatype Option<+T> = None | Some(value: T) {

    /** The value, or `default` when absent. */
    function GetOr(default: T): T
    {
      match this
      case Some(v) => v
      case None => default
    }
  }

  /** The outcome of a step that can reject. */
  datatype Result<+T, +E> = Ok(value: T) | Err(error: E)

  /** Why composing a time entry rejects. */
  datatype Error =
    | InvalidTimeFormat   // a start or end string has no well-formed `hh:mm` fragment
    | ProjectNotFound     // the selected workspace holds no project with the required name
}
