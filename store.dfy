/** The database the services share: one table per entity, each keyed by an
    auto-incremented id, and the constraints the database and the services keep on them. */
module Store {
  import opened Schema

  class Library {
    var books: Books
    var users: Users
    var loans: Loans
    var reservations: Reservations
    // the next id each table's auto-increment hands out
    var nextBookId: int
    var nextUserId: int
    var nextLoanId: int
    var nextReservationId: int

    /** Ids are positive and below their counters; the availability counter is in range;
        ISBNs and emails are unique; a member holds at most one open loan and at most one
        ACTIVE reservation per book. */
    ghost predicate Valid()
      reads this
      ensures Valid() ==> nextBookId !in books && nextUserId !in users
                          && nextLoanId !in loans && nextReservationId !in reservations
    {
      && 1 <= nextBookId && 1 <= nextUserId && 1 <= nextLoanId && 1 <= nextReservationId
      && IdsBelow(books, nextBookId) && IdsBelow(users, nextUserId)
      && IdsBelow(loans, nextLoanId) && IdsBelow(reservations, nextReservationId)
      && CopiesInRange(books) && IsbnUnique(books) && EmailUnique(users)
      && OneOpenLoanPerPair(loans) && OneActiveReservationPerPair(reservations)
    }

    /** An empty database. */
    constructor ()
      ensures Valid()
      ensures books == map[] && users == map[] && loans == map[] && reservations == map[]
      ensures nextBookId == 1 && nextUserId == 1 && nextLoanId == 1 && nextReservationId == 1
    {
      books, users, loans, reservations := map[], map[], map[], map[];
      nextBookId, nextUserId, nextLoanId, nextReservationId := 1, 1, 1, 1;
    }
  }
}
