/** The three failure kinds a caller of XAES-256-GCM can observe, and the
    result and option wrappers the model uses instead of raising. */
module Errors {

  /** InvalidKeyError, InvalidNonceError and InvalidCiphertextError. */
  datatype Error = InvalidKey | InvalidNonce | InvalidCiphertext

  /** The outcome of an operation that either returns a value or raises one of the errors. */
  datatype Result<+T> = Ok(value: T) | Err(error: Error)

  datatype Option<+T> = None | Some(value: T)
}
