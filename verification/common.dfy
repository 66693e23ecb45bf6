/** Failure-carrying wrappers shared by the listing parser's modules. */
module Common {

  datatype Option<+T> = None | Some(value: T)

  /** The parser's `Result<_, String>`: a value, or the message of the error that aborted it. */
  datatype Result<+T> = Ok(value: T) | Err(message: string)
}
