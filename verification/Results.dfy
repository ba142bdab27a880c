/**
 Failure values. Every Go function here that returns an error returns one of
 these; `Error` lists the package's named errors and its anonymous ones.
 */
module Results {
  datatype Error =
    // cursor and codec
    | Truncated | Oversize | TrailingBytes | Malformed | FieldBounds
    // signatures
    | MalformedKey | BadSignature
    // certificate chain
    | RolePairForbidden | ApproverNoQuorum | CertTooLongLived | UntrustedCA | OutsideWindow
    // detached receipts
    | NotExecutor | NotSignersCert | ForeignFingerprint
    // handshake and transport
    | BufferTooSmall | Mac1Failed | DecryptFailed | IdentityPoint | NotTransport | LengthMismatch

  datatype Option<+T> = None | Some(value: T)

  datatype Result<+T> = Ok(value: T) | Err(error: Error) {
    predicate IsFailure() {
      Err?
    }

    function PropagateFailure<U>(): Result<U>
      requires Err?
    {
      Err(error)
    }

    function Extract(): T
      requires Ok?
    {
      value
    }
  }
}
