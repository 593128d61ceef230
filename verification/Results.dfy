/** The crate's error conditions and the result type its operations return. */
module Results {

  datatype HpkeError =
    | OpenError
    | SealError
    | AeadInitError
    | EncapError
    | DecapError
    | InvalidPublicKey
    | InvalidPrivateKey
    | InvalidEncappedKey
    | InconsistentPsk
    | MissingPsk
    | UnnecessaryPsk // only the RFC's VerifyPSKInputs raises this one
    | InsecurePsk
    | ExportLengthExceeded
    | MessageLimitReached
    | DeriveKeyPairError

  datatype Option<+T> = None | Some(value: T)

  datatype Result<+T> = Ok(value: T) | Err(error: HpkeError) {
    predicate IsFailure() {
      Err?
    }

    function PropagateFailure<U>(): Result<U>
      requires Err?
    {
      Err(error)
    }

    function Extract(): T
      requires Ok?
    {
      value
    }
  }
}
