/** Configuration values the services read through `ConfigService.get(key, default)`,
    the member-type caps, and the integer time scale of the model.
    Time is integer milliseconds since the epoch; money is integer cents. */
module Config {

  /** Milliseconds in a day: the divisor `1000 * 60 * 60 * 24` of the fine computation. */
  const DAY_MS: int := 1000 * 60 * 60 * 24

  /** Cents in one unit of currency. */
  const CENTS: int := 100

  datatype UserType = Student | Teacher | Public

  datatype UserStatus = Active | Suspended | Inactive

  /** The string the database stores for a member type; the cap lookups switch on it. */
  function UserTypeName(t: UserType): string {
    match t
    case Student => "STUDENT"
    case Teacher => "TEACHER"
    case Public => "PUBLIC"
  }

  /** The configuration keys the loan and reservation services read. */
  datatype Settings = Settings(
    loanDurationDays: int,         // LOAN_DURATION_DAYS
    finePerDay: int,               // FINE_PER_DAY, in cents
    maxRenewals: int,              // MAX_RENEWALS
    maxLoansStudent: int,          // MAX_LOANS_STUDENT
    maxLoansTeacher: int,          // MAX_LOANS_TEACHER
    maxLoansPublic: int,           // MAX_LOANS_PUBLIC
    reservationDurationDays: int,  // RESERVATION_DURATION_DAYS
    maxReservationsStudent: int,   // MAX_RESERVATIONS_STUDENT
    maxReservationsTeacher: int,   // MAX_RESERVATIONS_TEACHER
    maxReservationsPublic: int     // MAX_RESERVATIONS_PUBLIC
  )

  /** The defaults written into the `get` calls, used when a key is unset. */
  const Defaults: Settings := Settings(
    loanDurationDays := 14,
    finePerDay := 1 * CENTS,
    maxRenewals := 2,
    maxLoansStudent := 3,
    maxLoansTeacher := 10,
    maxLoansPublic := 2,
    reservationDurationDays := 7,
    maxReservationsStudent := 2,
    maxReservationsTeacher := 5,
    maxReservationsPublic := 1
  )

  /** Loan cap per member type; an unrecognised type string gets the fixed cap 2,
      which no configuration key overrides. */
  function MaxLoansForUserType(userType: string, cfg: Settings): (cap: int)
    ensures userType == "STUDENT" ==> cap == cfg.maxLoansStudent
    ensures userType == "TEACHER" ==> cap == cfg.maxLoansTeacher
    ensures userType == "PUBLIC" ==> cap == cfg.maxLoansPublic
    ensures userType !in {"STUDENT", "TEACHER", "PUBLIC"} ==> cap == 2
  {
    match userType
    case "STUDENT" => cfg.maxLoansStudent
    case "TEACHER" => cfg.maxLoansTeacher
    case "PUBLIC" => cfg.maxLoansPublic
    case _ => 2
  }

  /** Reservation cap per member type; an unrecognised type string gets the fixed cap 1. */
  function MaxReservationsForUserType(userType: string, cfg: Settings): (cap: int)
    ensures userType == "STUDENT" ==> cap == cfg.maxReservationsStudent
    ensures userType == "TEACHER" ==> cap == cfg.maxReservationsTeacher
    ensures userType == "PUBLIC" ==> cap == cfg.maxReservationsPublic
    ensures userType !in {"STUDENT", "TEACHER", "PUBLIC"} ==> cap == 1
  {
    match userType
    case "STUDENT" => cfg.maxReservationsStudent
    case "TEACHER" => cfg.maxReservationsTeacher
    case "PUBLIC" => cfg.maxReservationsPublic
    case _ => 1
  }

  /** With the default settings an unrecognised type gets the PUBLIC cap, and that cap
      is the smallest of all, for both loans and reservations. */
  lemma FallbackIsMostRestrictive(unknown: string, any: string)
    requires unknown !in {"STUDENT", "TEACHER", "PUBLIC"}
    ensures MaxLoansForUserType(unknown, Defaults) == MaxLoansForUserType("PUBLIC", Defaults)
    ensures MaxLoansForUserType("PUBLIC", Defaults) <= MaxLoansForUserType(any, Defaults)
    ensures MaxReservationsForUserType(unknown, Defaults) == MaxReservationsForUserType("PUBLIC", Defaults)
    ensures MaxReservationsForUserType("PUBLIC", Defaults) <= MaxReservationsForUserType(any, Defaults)
  {
  }

  /** A date `days` calendar days after `t` (`setDate(getDate() + days)`, without daylight-saving shifts). */
  function AddDays(t: int, days: int): int {
    t + days * DAY_MS
  }
}
