/** The shapes of the Go code's optional values and `(reply, error)` results. */
module Outcomes {

  /** A value that may be absent: a game id the game service did not produce,
      a room view `RoomInfo` did not find. */
  datatype Option<T> = None | Some(value: T)
  {
    /** The carried value, or `fallback` when absent. */
    function ValueOr(fallback: T): T {
      if Some? then value else fallback
    }
  }

  /** A reply, or the error a malformed request gets instead of one. */
  datatype Result<R, E> = Ok(value: R) | Err(error: E)
}
