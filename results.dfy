/** Failure-compatible wrappers and the error taxonomy of the share signer. */
module Results {

  datatype Option<+T> = None | Some(value: T)

  /** The ways one call of the signing pipeline can fail. */
  datatype Error =
    /** A decimal field is not an integer literal (Python `int()` raises `ValueError`). */
    | InvalidInteger(field: string)
    /** The owner is not a 20-byte hex address (`to_checksum_address` raises `ValueError`). */
    | InvalidAddress
    /** Value `index` of the tuple does not fit its ABI type (eth_abi `ValueOutOfBounds`). */
    | ValueOutOfBounds(index: nat)
    /** Value `index` has the wrong kind for its ABI type (eth_abi `EncodingTypeError`). */
    | EncodingTypeError(index: nat)
    /** The value list and the type list differ in length (eth_abi raises `ValueOutOfBounds`; `sign_share` always passes seven values for seven types). */
    | ArityMismatch
    /** Decoding: the data is not exactly one word per type. */
    | InsufficientData
    /** Decoding: an address word has non-zero padding bytes. */
    | NonEmptyPadding(index: nat)
    /** Public-key recovery rejected the signature. */
    | InvalidSignature

  datatype Result<+T> = Success(value: T) | Failure(error: Error) {
    predicate IsFailure() { Failure? }

    function PropagateFailure<U>(): Result<U>
      requires Failure?
    {
      Failure(error)
    }

    function Extract(): T
      requires Success?
    {
      value
    }
  }
}
