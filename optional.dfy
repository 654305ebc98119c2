/** Failure-carrying values shared by the cleaners and the ledger. */
module Optional {

  /** A value that may be absent (Python's `None`). */
  datatype Option<T> = None | Some(value: T) {
    function GetOr(default: T): T {
      match this
      case Some(v) => v
      case None => default
    }
  }

  /** The outcome of an operation that may raise: a value, or the message of the exception. */
  datatype Result<T> = Ok(value: T) | Err(message: string)
}
