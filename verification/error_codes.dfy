/**
 * The status codes the two cores branch on, and the `Status` value that carries one.
 * Messages (the `reason` text of a status) are not modelled: no decision depends on them.
 */
module ErrorCodes {

  datatype Code =
    | OK
    | BadValue
    | TypeMismatch
    | Overflow
    | InternalError
    | IndexAlreadyExists
    | IndexOptionsConflict
    | WriteConflict
    | Interrupted
    | InterruptedAtShutdown
    | InterruptedDueToReplStateChange
    | ExceededTimeLimit
    | MaxTimeMSExpired
    | CursorKilled
    | LockTimeout
    | ClientDisconnect
    | OtherCode(value: int)

  /** Membership in the server's "Interruption" error category. */
  predicate IsInterruption(c: Code) {
    || c.Interrupted?
    || c.InterruptedAtShutdown?
    || c.InterruptedDueToReplStateChange?
    || c.ExceededTimeLimit?
    || c.MaxTimeMSExpired?
    || c.CursorKilled?
    || c.LockTimeout?
    || c.ClientDisconnect?
  }

  datatype Status = Status(code: Code) {
    predicate IsOK() {
      code.OK?
    }
  }

  /** A status that reports an error. */
  type ErrorStatus = s: Status | !s.IsOK() witness Status(BadValue)

  /** The status a setter returned together with the state it left behind. */
  datatype Applied<S> = Applied(status: Status, state: S)
}
