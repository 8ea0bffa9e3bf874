/** The optional value used for every nullable cell of the roster and for
    every lookup that may miss. */
module Options {

  datatype Option<+T> = None | Some(value: T) {

    /** The value, or `default` when there is none. */
    function GetOr(default: T): T {
      match this
      case Some(v) => v
      case None => default
    }
  }

  /** The outcome of a step that the scripts abort with an exception. */
  datatype Result<+T, +E> = Ok(value: T) | Err(error: E)
}
