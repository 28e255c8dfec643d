/** The loans service: borrowing, returning and renewing on the shared database, and the
    overdue sweep. `now` stands for the clock the service reads. */
module LoansService {
  import opened Common
  import opened Config
  import opened Schema
  import opened Loans
  import opened Store
  import B = Books
  import BooksService
  import UsersService

  /** `create`: after the checks pass, the loan row is inserted under the next id and one
      copy of the book is taken; a failed check changes nothing. */
  method Create(db: Library, userId: int, bookId: int, now: int, cfg: Settings) returns (r: Result<int>)
    requires db.Valid()
    modifies db`loans, db`nextLoanId, db`books
    ensures db.Valid()
    ensures r.Ok? <==> CheckBorrow(old(db.users), old(db.books), old(db.loans), userId, bookId, cfg).Pass?
    ensures r.Err? ==> r.error == CheckBorrow(old(db.users), old(db.books), old(db.loans), userId, bookId, cfg).error
                       && db.loans == old(db.loans) && db.books == old(db.books)
                       && db.nextLoanId == old(db.nextLoanId)
    ensures r.Ok? ==> r.value == old(db.nextLoanId) && db.nextLoanId == old(db.nextLoanId) + 1
                      && db.loans == old(db.loans)[r.value := NewLoan(userId, bookId, now, cfg)]
                      && bookId in old(db.books)
                      && db.books == old(db.books)[bookId := old(db.books)[bookId].(
                                       availableCopies := old(db.books)[bookId].availableCopies - 1)]
    ensures r.Ok? ==> userId in db.users && |OpenLoansOf(db.loans, userId)| <= LoanCap(db.users[userId], cfg)
  {
    var o := CheckBorrow(db.users, db.books, db.loans, userId, bookId, cfg);
    if o.Fail? {
      return Err(o.error);
    }
    var id := db.nextLoanId;
    BorrowKeepsLoanInvariants(db.users, db.books, db.loans, userId, bookId, id, now, cfg);
    db.loans := db.loans[id := NewLoan(userId, bookId, now, cfg)];
    db.nextLoanId := id + 1;
    // the counter move cannot fail here: the check saw a copy available
    var b := BooksService.UpdateAvailableCopies(db, bookId, -1);
    assert b.Ok?;
    r := Ok(id);
  }

  /** `returnBook` at `now`. A missing loan is NotFound and a loan that is not open is
      refused. Otherwise the loan is closed inside a transaction, one copy is put back and
      a positive late fine is posted to the member. The counter move and the posting are
      not made on the transaction: a failed counter move undoes the closure, and a failed
      posting (the member is gone) undoes the closure but not the counter move. */
  method ReturnBook(db: Library, id: int, now: int, cfg: Settings) returns (r: Result<Loan>)
    requires db.Valid()
    modifies db`loans, db`books, db`users
    ensures db.Valid()
    ensures id !in old(db.loans) ==> r == Err(LoanNotFound)
    ensures id in old(db.loans) && CheckReturn(old(db.loans)[id]).Fail? ==>
              r == Err(CheckReturn(old(db.loans)[id]).error)
    ensures id in old(db.loans) && CheckReturn(old(db.loans)[id]).Pass? ==>
              var l := old(db.loans)[id];
              && (l.bookId !in old(db.books) ==> r == Err(BookNotFound))
              && (l.bookId in old(db.books) && B.AdjustAvailable(old(db.books)[l.bookId], 1).Err? ==>
                    r == Err(B.AdjustAvailable(old(db.books)[l.bookId], 1).error))
              && (l.bookId in old(db.books) && B.AdjustAvailable(old(db.books)[l.bookId], 1).Ok? ==>
                    (r.Ok? <==> FinePosted(l, now, cfg) > 0 ==> l.userId in old(db.users)))
              && (l.bookId in old(db.books) && B.AdjustAvailable(old(db.books)[l.bookId], 1).Ok?
                  && FinePosted(l, now, cfg) > 0 && l.userId !in old(db.users) ==>
                    r == Err(UserNotFound))
    ensures r.Ok? ==> id in old(db.loans)
                      && var l := old(db.loans)[id];
                      && r.value == Closed(l, now, cfg)
                      && db.loans == old(db.loans)[id := r.value]
                      && l.bookId in old(db.books)
                      && db.books == old(db.books)[l.bookId := old(db.books)[l.bookId].(
                                       availableCopies := old(db.books)[l.bookId].availableCopies + 1)]
                      && db.users == (if FinePosted(l, now, cfg) > 0
                                      then old(db.users)[l.userId := old(db.users)[l.userId].(
                                             fines := old(db.users)[l.userId].fines + FinePosted(l, now, cfg))]
                                      else old(db.users))
    ensures r.Err? ==> db.loans == old(db.loans) && db.users == old(db.users)
    ensures r.Err? && r.error != UserNotFound ==> db.books == old(db.books)
    ensures r == Err(UserNotFound) ==>
              id in old(db.loans) && old(db.loans)[id].bookId in old(db.books)
              && db.books == old(db.books)[old(db.loans)[id].bookId := old(db.books)[old(db.loans)[id].bookId].(
                               availableCopies := old(db.books)[old(db.loans)[id].bookId].availableCopies + 1)]
    ensures FinesNonNegative(old(db.users)) ==> FinesNonNegative(db.users)
  {
    if id !in db.loans {
      return Err(LoanNotFound);
    }
    var l := db.loans[id];
    var o := CheckReturn(l);
    if o.Fail? {
      return Err(o.error);
    }
    var saved := db.loans;
    CloseKeepsOneOpenLoanPerPair(db.loans, id, now, cfg);
    db.loans := db.loans[id := Closed(l, now, cfg)];
    var b := BooksService.UpdateAvailableCopies(db, l.bookId, 1);
    if b.Err? {
      db.loans := saved;  // the transaction rolls back
      return Err(b.error);
    }
    var amount := FinePosted(l, now, cfg);
    if amount > 0 {
      var u := UsersService.AddFine(db, l.userId, amount);
      if u.Err? {
        db.loans := saved;  // the transaction rolls back; the counter move stays
        return Err(u.error);
      }
    }
    r := Ok(Closed(l, now, cfg));
  }

  /** `renewLoan`: a missing loan is NotFound; a loan that passes the renewal checks gets
      its due date pushed back and its renewal count raised, and nothing else changes. */
  method RenewLoan(db: Library, id: int, cfg: Settings) returns (r: Result<Loan>)
    requires db.Valid()
    modifies db`loans
    ensures db.Valid()
    ensures id !in old(db.loans) ==> r == Err(LoanNotFound)
    ensures id in old(db.loans) ==>
              (r.Ok? <==> CheckRenew(old(db.loans)[id], db.reservations, cfg).Pass?)
              && (r.Err? ==> r.error == CheckRenew(old(db.loans)[id], db.reservations, cfg).error)
    ensures r.Ok? ==> id in old(db.loans) && r.value == Renewed(old(db.loans)[id], cfg)
                      && db.loans == old(db.loans)[id := r.value]
    ensures r.Err? ==> db.loans == old(db.loans)
  {
    if id !in db.loans {
      return Err(LoanNotFound);
    }
    var o := CheckRenew(db.loans[id], db.reservations, cfg);
    if o.Fail? {
      return Err(o.error);
    }
    var l := Renewed(db.loans[id], cfg);
    RenewKeepsOneOpenLoanPerPair(db.loans, id, cfg);
    db.loans := db.loans[id := l];
    r := Ok(l);
  }

  /** `findOverdueLoans` at `now`: the ACTIVE loans due before `now`. */
  method FindOverdueLoans(db: Library, now: int) returns (ids: set<int>)
    ensures forall id :: id in ids <==> id in db.loans && db.loans[id].status == LoanStatus.Active
                                        && db.loans[id].dueDate < now
  {
    ids := OverdueIds(db.loans, now);
  }

  /** `updateOverdueLoans` at `now`: one bulk update marks every past-due ACTIVE loan
      OVERDUE and reports how many rows it changed; afterwards none is left. */
  method UpdateOverdueLoans(db: Library, now: int) returns (updated: nat)
    requires db.Valid()
    modifies db`loans
    ensures db.Valid()
    ensures db.loans == SweepOverdue(old(db.loans), now)
    ensures updated == |OverdueIds(old(db.loans), now)|
    ensures updated == |set id | id in old(db.loans) && db.loans[id] != old(db.loans)[id]|
    ensures OverdueIds(db.loans, now) == {}
  {
    updated := |OverdueIds(db.loans, now)|;
    SweepChangesExactlyOverdue(db.loans, now);
    SweepKeepsOneOpenLoanPerPair(db.loans, now);
    db.loans := SweepOverdue(db.loans, now);
  }
}
