/** Success-or-error values standing in for the exceptions the protocol raises. */
module Outcomes {

  /** `Ok` carries the value an operation returns; `Err` the message of the exception it raises. */
  datatype Result<T> = Ok(value: T) | Err(msg: string)

  datatype Option<T> = None | Some(value: T)
}
