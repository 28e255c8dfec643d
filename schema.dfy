/** The database rows the services read and write, and the `where` filters they query
    them with. Tables are maps from the auto-incremented id to the row. */
module Schema {
  import opened Common
  import opened Config

  /** A catalogue entry; title, author and the descriptive columns play no part in any rule. */
  datatype Book = Book(isbn: Option<string>, totalCopies: int, availableCopies: int)

  /** A member; `fines` is the outstanding balance in cents. */
  datatype User = User(email: string, userType: UserType, status: UserStatus,
                       fines: int, age: Option<int>)

  datatype LoanStatus = Active | Overdue | Returned | Cancelled

  /** A loan; dates are milliseconds, `fine` is in cents. */
  datatype Loan = Loan(userId: int, bookId: int, loanDate: int, dueDate: int,
                       returnDate: Option<int>, renewalCount: int, fine: int,
                       status: LoanStatus)

  datatype ReservationStatus = Active | Fulfilled | Cancelled | Expired

  datatype Reservation = Reservation(userId: int, bookId: int, reservationDate: int,
                                     expirationDate: int, status: ReservationStatus)

  type Books = map<int, Book>
  type Users = map<int, User>
  type Loans = map<int, Loan>
  type Reservations = map<int, Reservation>

  /** `status: { in: [ACTIVE, OVERDUE] }`: the loan still holds a copy. */
  predicate IsOpen(l: Loan) {
    l.status == LoanStatus.Active || l.status == LoanStatus.Overdue
  }

  /** The member's loans that still hold a copy; the loan cap counts these. */
  function OpenLoansOf(loans: Loans, userId: int): set<int> {
    set id | id in loans && loans[id].userId == userId && IsOpen(loans[id])
  }

  /** The member already holds an open loan for the book. */
  predicate HasOpenLoan(loans: Loans, userId: int, bookId: int) {
    exists id :: id in loans && loans[id].userId == userId && loans[id].bookId == bookId
                 && IsOpen(loans[id])
  }

  /** Loans of the member whose status is exactly ACTIVE (the delete guard's filter). */
  function ActiveLoansOf(loans: Loans, userId: int): set<int> {
    set id | id in loans && loans[id].userId == userId && loans[id].status == LoanStatus.Active
  }

  /** Loans of the book whose status is exactly ACTIVE (the delete guard's filter). */
  function ActiveLoansFor(loans: Loans, bookId: int): set<int> {
    set id | id in loans && loans[id].bookId == bookId && loans[id].status == LoanStatus.Active
  }

  /** The member's ACTIVE reservations; the reservation cap counts these. */
  function ActiveReservationsOf(rs: Reservations, userId: int): set<int> {
    set id | id in rs && rs[id].userId == userId && rs[id].status == ReservationStatus.Active
  }

  /** The book's ACTIVE reservations (the queue waiting for a copy). */
  function ActiveReservationsFor(rs: Reservations, bookId: int): set<int> {
    set id | id in rs && rs[id].bookId == bookId && rs[id].status == ReservationStatus.Active
  }

  /** The member already has an ACTIVE reservation for the book. */
  predicate HasActiveReservation(rs: Reservations, userId: int, bookId: int) {
    exists id :: id in rs && rs[id].userId == userId && rs[id].bookId == bookId
                 && rs[id].status == ReservationStatus.Active
  }

  // ---- invariants of the tables ----

  /** 0 <= availableCopies <= totalCopies for every book. */
  ghost predicate CopiesInRange(books: Books) {
    forall id :: id in books ==> 0 <= books[id].availableCopies <= books[id].totalCopies
  }

  /** No two books share an ISBN (a unique column). */
  ghost predicate IsbnUnique(books: Books) {
    forall i, j :: i in books && j in books && i != j && books[i].isbn.Some? ==>
      books[i].isbn != books[j].isbn
  }

  /** No two members share an email (a unique column). */
  ghost predicate EmailUnique(users: Users) {
    forall i, j :: i in users && j in users && i != j ==> users[i].email != users[j].email
  }

  /** Every member's outstanding balance is non-negative. */
  ghost predicate FinesNonNegative(users: Users) {
    forall id :: id in users ==> users[id].fines >= 0
  }

  /** A member holds at most one open loan per book. */
  ghost predicate OneOpenLoanPerPair(loans: Loans) {
    forall i, j :: i in loans && j in loans && i != j && IsOpen(loans[i]) && IsOpen(loans[j]) ==>
      loans[i].userId != loans[j].userId || loans[i].bookId != loans[j].bookId
  }

  /** A member holds at most one ACTIVE reservation per book. */
  ghost predicate OneActiveReservationPerPair(rs: Reservations) {
    forall i, j :: i in rs && j in rs && i != j
                   && rs[i].status == ReservationStatus.Active
                   && rs[j].status == ReservationStatus.Active ==>
      rs[i].userId != rs[j].userId || rs[i].bookId != rs[j].bookId
  }

  /** Every key of a table lies in [1, next): ids are positive and below the counter. */
  ghost predicate IdsBelow<T>(table: map<int, T>, next: int) {
    forall id :: id in table ==> 1 <= id < next
  }

  /** Cardinality is monotone under inclusion. */
  lemma {:induction false} SubsetCard<T>(a: set<T>, b: set<T>)
    requires a <= b
    ensures |a| <= |b|
    decreases b
  {
    if a != {} {
      var x :| x in a;
      SubsetCard(a - {x}, b - {x});
    }
  }
}
