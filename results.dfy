/** Outcomes of the library's operations.  The HTTP layer turns these into
    status codes (404 for NotFound, 400 or 500 for a rejection); here they
    are plain values. */
module Results {

  datatype Option<+T> = None | Some(value: T) {
    function GetOr(default: T): T {
      match this
      case Some(v) => v
      case None => default
    }
  }

  /** Why an operation refused to change the store. */
  datatype Reason =
    | NoCopiesAvailable
    | MemberNotActive
    | BorrowLimitReached(limit: int)
    | AlreadyReturned
    | NoFineToPay
    | FineAlreadyPaid
    | DuplicateIsbn
    | DuplicateEmail
    | HasActiveBorrows
      /** A unique column that the route does not check itself made the commit fail. */
    | UniqueConstraint

  datatype Error = NotFound | Rejected(reason: Reason)

  datatype Result<+T> = Ok(value: T) | Err(error: Error)

  /** The outcome of an operation that answers with a message only. */
  datatype Outcome = Done | Failed(error: Error)
}
