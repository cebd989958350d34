/**
  Result codes shared by every component, in place of the kernel's signed `ios_status`.
  Only the codes that the modelled code returns are listed.
*/
module Status {
  datatype Status =
    | Ok
    | InvalidArgument
    | InvalidState
    | Corrupt
    | Protocol
    | NoSpace
    | OutOfRange
    | Overflow
    | WouldBlock
    | ReadOnly
    | NotFound
    | AlreadyExists
    | BadHandle
    | AccessDenied
    | UnsupportedVersion
    | NotSupported
    | BadAddress
    | Io
  {
    predicate Failed() {
      this != Ok
    }

    /** Answers of the storage below: a device error, no cache entry to spare, generations used up, no writes taken. */
    predicate FromBelow() {
      this in {Io, WouldBlock, Overflow, ReadOnly}
    }
  }

  /** How the storage below stands: transfers failed since the count was started, and what it has run out of. */
  datatype Below = Below(faults: nat, cacheFull: bool, generationsUsedUp: bool, readOnly: bool)
  {
    /** There is a reason for this answer to come from the storage below. */
    predicate Excuses(status: Status) {
      match status
      case Io => faults > 0
      case WouldBlock => cacheFull
      case Overflow => generationsUsedUp
      case ReadOnly => readOnly
      case _ => false
    }
  }

  datatype Result<+T> = Success(value: T) | Failure(error: Status)

  datatype Option<+T> = None | Some(value: T)
}
