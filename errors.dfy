/** The failures the core reports, and the Option/Result shapes that carry them. */
module Errors {

  datatype Option<T> = None | Some(value: T)

  /** The error kinds of the log: a bad call, a proof that does not check
      out, a node the local store does not hold, a rejected signature and
      an unreadable operation log. */
  datatype Error =
    | BadArgument
    | InvalidProof
    | MissingNode
    | InvalidSignature
    | Corruption
    | WriteFailed

  datatype Result<T> = Ok(value: T) | Err(error: Error)
}
