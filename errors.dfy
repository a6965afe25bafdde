/** The error kinds of the RSA crate (proj/rsa/src/errors.rs) and the
    `Result` every fallible operation returns. The `Display` texts are not
    modelled. */
module Errors {

  datatype Error =
    | MessageNotAscii
    | InvalidKeyPair
    | MaskTooLong
    | MessageTooLong
    | IntegerTooLarge   // spelled `IntergerTooLarge` in the source
    | OctetStringEmpty
    | InvalidBufferSize
    | DecryptionError

  datatype Result<+T> = Success(value: T) | Failure(error: Error) {

    predicate IsFailure() {
      Failure?
    }

    function PropagateFailure<U>(): Result<U>
      requires Failure?
    {
      Failure(error)
    }

    function Extract(): T
      requires Success?
    {
      value
    }
  }

  /** An optional value; used where a library call may yield nothing. */
  datatype Option<+T> = None | Some(value: T)
}
