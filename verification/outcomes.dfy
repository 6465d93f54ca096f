/** Values that may be missing and operations that may fail. */
module Outcomes {

  /** A nullable value: a database column that may hold null, an optional input. */
  datatype Option<+T> = None | Some(value: T)

  /** The outcome of an endpoint: the value it returns, or the message of the error it throws. */
  datatype Result<+T> = Ok(value: T) | Err(message: string)
}
