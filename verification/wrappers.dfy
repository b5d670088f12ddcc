/** Failure-carrying datatypes shared by every module of the model, and the
    errors the modelled code raises or passes through. */
module Wrappers {

  datatype Option<+T> = None | Some(value: T)

  datatype Result<+T, +E> = Ok(value: T) | Err(error: E)

  /** An operation that returns only an error (Go's `error` result): `Pass` is `nil`. */
  datatype Outcome<+E> = Pass | Fail(error: E)

  /** The errors that travel through the value pipeline.
      `EOF` is what a decoder reports once its input is exhausted; it is the only
      error the decode loops treat as success. */
  datatype Error =
    | EOF
    | InvalidKey          // a map key that is not a string
    | InvalidToken        // a token that cannot start a value
    | WriteFailed         // the destination writer refused a write
    | Foreign(msg: string) // reported by a collaborator outside the model (decoder, encoder, evaluator, file system)
}
