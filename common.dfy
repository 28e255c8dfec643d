/** Error taxonomy and result wrappers shared by every service.
    Each service raises a NestJS exception with a fixed message; the model
    names every such message as a `Failure` and maps it to the exception
    class (`Kind`) the service throws. */
module Common {

  /** The three exception classes the services throw. */
  datatype ErrorKind = NotFound | Conflict | BadRequest

  /** One constructor per distinct exception raised by the modelled services. */
  datatype Failure =
    // lookups
    | UserNotFound | BookNotFound | LoanNotFound | ReservationNotFound
    // borrowing and reserving
    | UserNotActive | BookNotAvailable | LoanAlreadyOpen | LoanLimitReached
    | ReservationAlreadyActive | ReservationLimitReached
    // returning and renewing
    | AlreadyReturned | LoanNotReturnable | LoanNotRenewable | RenewalLimitReached
    | PendingReservations
    // reservation transitions
    | AlreadyCancelled | CannotCancelFulfilled | ReservationNotActive
    // catalogue
    | CopiesNegative | CopiesExceedTotal | TotalCopiesTooSmall | IsbnTaken
    | BookHasActiveLoans | BookHasActiveReservations
    // members
    | EmailTaken | StudentTooYoung | UserHasActiveLoans | UserHasActiveReservations
    | UserHasFines | PaymentExceedsFines
    // query validation
    | InvalidPage | InvalidLimit

  /** The exception class each failure is raised as. */
  function Kind(f: Failure): ErrorKind {
    match f
    case UserNotFound | BookNotFound | LoanNotFound | ReservationNotFound => NotFound
    case BookNotAvailable | LoanAlreadyOpen | LoanLimitReached | ReservationAlreadyActive
      | ReservationLimitReached | AlreadyReturned | RenewalLimitReached
      | PendingReservations | AlreadyCancelled | IsbnTaken | EmailTaken => Conflict
    case _ => BadRequest
  }

  datatype Option<+T> = None | Some(value: T)

  datatype Result<+T> = Ok(value: T) | Err(error: Failure)

  /** A check that either lets the operation go ahead or names why it may not. */
  datatype Outcome = Pass | Fail(error: Failure)

  function Min(a: int, b: int): int {
    if a <= b then a else b
  }

  /** `Math.ceil(n / d)` for a positive divisor: the least `q` with `n <= q * d`. */
  function CeilDiv(n: int, d: int): (q: int)
    requires d >= 1
    ensures (q - 1) * d < n <= q * d
  {
    var q := (n + d - 1) / d;
    assert q * d <= n + d - 1 < q * d + d;
    q
  }
}
