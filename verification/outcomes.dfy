/** Failure-carrying wrappers shared by the store, HTTP and RPC models. */
module Outcomes {

  /** A value that may be absent: a store call that was never made, a reply with no body. */
  datatype Option<+T> = None | Some(value: T)

  /** The outcome of a store call: a value or the error the driver reported. */
  datatype Result<+T, +E> = Success(value: T) | Failure(error: E)
}
