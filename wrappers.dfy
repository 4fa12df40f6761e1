/**
 * Option and Result values, and the exception kinds that the modelled
 * Python code raises. An operation that can raise returns a Result.
 */
module Wrappers {
  datatype Option<+T> = None | Some(value: T)

  /** The Python exception classes raised by the modelled code. */
  datatype Error =
    | ValueError(message: string)
    | TypeError(message: string)
    | AttributeError(message: string)

  datatype Result<+T> = Ok(value: T) | Err(error: Error)
}
