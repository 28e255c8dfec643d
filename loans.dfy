/** Loan rules of the loans service: the ordered checks of borrowing, returning and
    renewing, the late fine, and the overdue sweep. */
module Loans {
  import opened Common
  import opened Config
  import opened Schema

  // ---- borrowing ----

  /** The member-type cap on open loans for the member. */
  function LoanCap(u: User, cfg: Settings): int {
    MaxLoansForUserType(UserTypeName(u.userType), cfg)
  }

  /** The checks of `create`, in the order the service makes them: the member exists and is
      ACTIVE, the book exists and has a copy available, the member holds no open loan for
      it, and the member's open loans are below the cap of their type. */
  function CheckBorrow(users: Users, books: Books, loans: Loans, userId: int, bookId: int,
                       cfg: Settings): (o: Outcome)
    ensures o.Pass? <==> userId in users && users[userId].status == UserStatus.Active
                         && bookId in books && books[bookId].availableCopies > 0
                         && !HasOpenLoan(loans, userId, bookId)
                         && |OpenLoansOf(loans, userId)| < LoanCap(users[userId], cfg)
    ensures o == Fail(UserNotFound) <==> userId !in users
    ensures o == Fail(UserNotActive) <==> userId in users && users[userId].status != UserStatus.Active
    ensures o == Fail(BookNotFound) <==>
              userId in users && users[userId].status == UserStatus.Active && bookId !in books
    ensures o == Fail(BookNotAvailable) <==>
              userId in users && users[userId].status == UserStatus.Active
              && bookId in books && books[bookId].availableCopies <= 0
    ensures o == Fail(LoanAlreadyOpen) <==>
              userId in users && users[userId].status == UserStatus.Active
              && bookId in books && books[bookId].availableCopies > 0
              && HasOpenLoan(loans, userId, bookId)
    ensures o == Fail(LoanLimitReached) <==>
              userId in users && users[userId].status == UserStatus.Active
              && bookId in books && books[bookId].availableCopies > 0
              && !HasOpenLoan(loans, userId, bookId)
              && |OpenLoansOf(loans, userId)| >= LoanCap(users[userId], cfg)
    ensures o.Fail? ==> o.error in {UserNotFound, UserNotActive, BookNotFound, BookNotAvailable,
                                    LoanAlreadyOpen, LoanLimitReached}
  {
    if userId !in users then Fail(UserNotFound)
    else if users[userId].status != UserStatus.Active then Fail(UserNotActive)
    else if bookId !in books then Fail(BookNotFound)
    else if books[bookId].availableCopies <= 0 then Fail(BookNotAvailable)
    else if HasOpenLoan(loans, userId, bookId) then Fail(LoanAlreadyOpen)
    else if |OpenLoansOf(loans, userId)| >= LoanCap(users[userId], cfg) then Fail(LoanLimitReached)
    else Pass
  }

  /** The row `create` inserts: ACTIVE, lent at `now`, due LOAN_DURATION_DAYS later. */
  function NewLoan(userId: int, bookId: int, now: int, cfg: Settings): (l: Loan)
    ensures l.status == LoanStatus.Active && IsOpen(l)
    ensures l.userId == userId && l.bookId == bookId && l.loanDate == now
    ensures l.dueDate - l.loanDate == cfg.loanDurationDays * DAY_MS
    ensures l.returnDate.None? && l.renewalCount == 0 && l.fine == 0
  {
    Loan(userId, bookId, now, AddDays(now, cfg.loanDurationDays), None, 0, 0, LoanStatus.Active)
  }

  /** Inserting the new loan under a fresh id adds exactly that id to the member's open
      loans, so a borrow that passed the cap check leaves the member at most at the cap. */
  lemma BorrowAddsOneOpenLoan(loans: Loans, userId: int, bookId: int, id: int, now: int, cfg: Settings)
    requires id !in loans
    ensures OpenLoansOf(loans[id := NewLoan(userId, bookId, now, cfg)], userId)
            == OpenLoansOf(loans, userId) + {id}
    ensures |OpenLoansOf(loans[id := NewLoan(userId, bookId, now, cfg)], userId)|
            == |OpenLoansOf(loans, userId)| + 1
  {
    var after := OpenLoansOf(loans[id := NewLoan(userId, bookId, now, cfg)], userId);
    assert after == OpenLoansOf(loans, userId) + {id};
  }

  /** A borrow that passed its checks keeps at most one open loan per (member, book),
      and the member ends at most at the cap. */
  lemma BorrowKeepsLoanInvariants(users: Users, books: Books, loans: Loans, userId: int,
                                  bookId: int, id: int, now: int, cfg: Settings)
    requires OneOpenLoanPerPair(loans) && id !in loans
    requires CheckBorrow(users, books, loans, userId, bookId, cfg).Pass?
    ensures OneOpenLoanPerPair(loans[id := NewLoan(userId, bookId, now, cfg)])
    ensures |OpenLoansOf(loans[id := NewLoan(userId, bookId, now, cfg)], userId)|
            <= LoanCap(users[userId], cfg)
  {
    BorrowAddsOneOpenLoan(loans, userId, bookId, id, now, cfg);
    var nl := loans[id := NewLoan(userId, bookId, now, cfg)];
    forall i, j | i in nl && j in nl && i != j && IsOpen(nl[i]) && IsOpen(nl[j])
      ensures nl[i].userId != nl[j].userId || nl[i].bookId != nl[j].bookId
    {
    }
  }

  // ---- returning ----

  /** Whole days a return at `now` is late, rounded up: `ceil((now - dueDate) / 1 day)`. */
  function OverdueDays(now: int, dueDate: int): (days: int)
    requires now > dueDate
    ensures days >= 1
    ensures (days - 1) * DAY_MS < now - dueDate <= days * DAY_MS
  {
    CeilDiv(now - dueDate, DAY_MS)
  }

  /** The fine for returning `l` at `now`: overdue days times FINE_PER_DAY when `now` is
      past the due date, otherwise 0. */
  function LateFine(l: Loan, now: int, cfg: Settings): (fine: int)
    ensures now <= l.dueDate ==> fine == 0
    ensures now > l.dueDate ==>
              (exists days ::
                 && days >= 1 && fine == days * cfg.finePerDay
                 && (days - 1) * DAY_MS < now - l.dueDate <= days * DAY_MS)
  {
    if now > l.dueDate then
      var days := OverdueDays(now, l.dueDate);
      assert (days - 1) * DAY_MS < now - l.dueDate <= days * DAY_MS;
      days * cfg.finePerDay
    else 0
  }

  /** A return `k` whole days after the due date costs exactly `k` days of fine, and a
      return any time in the day after that costs one day more. */
  lemma LateFineWholeDays(l: Loan, k: int, extra: int, cfg: Settings)
    requires k >= 0 && 0 < extra <= DAY_MS
    ensures LateFine(l, l.dueDate + k * DAY_MS + extra, cfg) == (k + 1) * cfg.finePerDay
  {
    var now := l.dueDate + k * DAY_MS + extra;
    var d := OverdueDays(now, l.dueDate);
    assert (d - 1) * DAY_MS < k * DAY_MS + extra <= d * DAY_MS;
    assert d == k + 1;
  }

  /** The status checks of `returnBook`: a RETURNED loan is a conflict, and of the rest
      only ACTIVE and OVERDUE loans can be returned. */
  function CheckReturn(l: Loan): (o: Outcome)
    ensures o.Pass? <==> IsOpen(l)
    ensures o == Fail(AlreadyReturned) <==> l.status == LoanStatus.Returned
    ensures o.Fail? ==> o.error in {AlreadyReturned, LoanNotReturnable}
  {
    if l.status == LoanStatus.Returned then Fail(AlreadyReturned)
    else if !IsOpen(l) then Fail(LoanNotReturnable)
    else Pass
  }

  /** The loan after `returnBook` at `now`: RETURNED, returned at `now`, and carrying the
      late fine when it was late (an on-time return leaves the stored fine as it was). */
  function Closed(l: Loan, now: int, cfg: Settings): (c: Loan)
    ensures c.status == LoanStatus.Returned && !IsOpen(c) && c.returnDate == Some(now)
    ensures c.fine == (if now > l.dueDate then LateFine(l, now, cfg) else l.fine)
    ensures c.(status := l.status, returnDate := l.returnDate, fine := l.fine) == l
  {
    l.(status := LoanStatus.Returned, returnDate := Some(now),
       fine := if now > l.dueDate then LateFine(l, now, cfg) else l.fine)
  }

  /** The amount `returnBook` adds to the member's balance: the late fine when the return
      is late and that fine is positive, otherwise nothing. */
  function FinePosted(l: Loan, now: int, cfg: Settings): (amount: int)
    ensures amount >= 0
    ensures amount > 0 <==> now > l.dueDate && LateFine(l, now, cfg) > 0
    ensures amount > 0 ==> amount == Closed(l, now, cfg).fine
  {
    if now > l.dueDate && LateFine(l, now, cfg) > 0 then LateFine(l, now, cfg) else 0
  }

  /** A loan borrowed at `lent` and returned by its due date carries no fine and posts
      nothing to the member's balance. */
  lemma OnTimeReturnIsFree(userId: int, bookId: int, lent: int, now: int, cfg: Settings)
    requires now <= AddDays(lent, cfg.loanDurationDays)
    ensures Closed(NewLoan(userId, bookId, lent, cfg), now, cfg).fine == 0
    ensures FinePosted(NewLoan(userId, bookId, lent, cfg), now, cfg) == 0
  {
  }

  /** Closing a loan keeps at most one open loan per (member, book). */
  lemma CloseKeepsOneOpenLoanPerPair(loans: Loans, id: int, now: int, cfg: Settings)
    requires OneOpenLoanPerPair(loans) && id in loans
    ensures OneOpenLoanPerPair(loans[id := Closed(loans[id], now, cfg)])
  {
  }

  // ---- renewing ----

  /** The checks of `renewLoan`: only an ACTIVE loan, below MAX_RENEWALS renewals, on a
      book with no ACTIVE reservation, can be renewed. */
  function CheckRenew(l: Loan, rs: Reservations, cfg: Settings): (o: Outcome)
    ensures o.Pass? <==> l.status == LoanStatus.Active && l.renewalCount < cfg.maxRenewals
                         && ActiveReservationsFor(rs, l.bookId) == {}
    ensures o == Fail(LoanNotRenewable) <==> l.status != LoanStatus.Active
    ensures o == Fail(RenewalLimitReached) <==>
              l.status == LoanStatus.Active && l.renewalCount >= cfg.maxRenewals
    ensures o == Fail(PendingReservations) <==>
              l.status == LoanStatus.Active && l.renewalCount < cfg.maxRenewals
              && ActiveReservationsFor(rs, l.bookId) != {}
    ensures o.Fail? ==> o.error in {LoanNotRenewable, RenewalLimitReached, PendingReservations}
  {
    if l.status != LoanStatus.Active then Fail(LoanNotRenewable)
    else if l.renewalCount >= cfg.maxRenewals then Fail(RenewalLimitReached)
    else if |ActiveReservationsFor(rs, l.bookId)| > 0 then Fail(PendingReservations)
    else Pass
  }

  /** The loan after `renewLoan`: due LOAN_DURATION_DAYS after its old due date, one more
      renewal, nothing else changed. */
  function Renewed(l: Loan, cfg: Settings): (r: Loan)
    ensures r.dueDate - l.dueDate == cfg.loanDurationDays * DAY_MS
    ensures r.renewalCount == l.renewalCount + 1
    ensures r.(dueDate := l.dueDate, renewalCount := l.renewalCount) == l
  {
    l.(dueDate := AddDays(l.dueDate, cfg.loanDurationDays), renewalCount := l.renewalCount + 1)
  }

  /** Renewal never takes a loan past MAX_RENEWALS renewals, whatever the reservations. */
  lemma RenewalsBounded(l: Loan, rs: Reservations, cfg: Settings)
    requires l.renewalCount >= 0
    requires CheckRenew(l, rs, cfg).Pass?
    ensures 1 <= Renewed(l, cfg).renewalCount <= cfg.maxRenewals
  {
  }

  /** Renewing a loan keeps at most one open loan per (member, book). */
  lemma RenewKeepsOneOpenLoanPerPair(loans: Loans, id: int, cfg: Settings)
    requires OneOpenLoanPerPair(loans) && id in loans
    ensures OneOpenLoanPerPair(loans[id := Renewed(loans[id], cfg)])
  {
  }

  // ---- the overdue sweep ----

  /** The filter of `findOverdueLoans` and `updateOverdueLoans`: ACTIVE and due before `now`. */
  predicate PastDue(l: Loan, now: int) {
    l.status == LoanStatus.Active && l.dueDate < now
  }

  /** The ids `findOverdueLoans` reports at `now`. */
  function OverdueIds(loans: Loans, now: int): (ids: set<int>)
    ensures forall id :: id in ids <==> id in loans && PastDue(loans[id], now)
  {
    set id | id in loans && PastDue(loans[id], now)
  }

  /** The table after `updateOverdueLoans` at `now`: exactly the past-due loans become
      OVERDUE, nothing else changes, and no past-due loan is left. */
  function SweepOverdue(loans: Loans, now: int): (r: Loans)
    ensures r.Keys == loans.Keys
    ensures forall id :: id in r ==> r[id] == (if PastDue(loans[id], now)
                                               then loans[id].(status := LoanStatus.Overdue)
                                               else loans[id])
    ensures OverdueIds(r, now) == {}
  {
    map id | id in loans :: if PastDue(loans[id], now) then loans[id].(status := LoanStatus.Overdue)
                            else loans[id]
  }

  /** The rows the sweep changes are exactly those `findOverdueLoans` reports, so the count
      it returns is the number of rows it changed. */
  lemma SweepChangesExactlyOverdue(loans: Loans, now: int)
    ensures (set id | id in loans && SweepOverdue(loans, now)[id] != loans[id]) == OverdueIds(loans, now)
  {
    var r := SweepOverdue(loans, now);
    forall id | id in loans
      ensures r[id] != loans[id] <==> PastDue(loans[id], now)
    {
      if PastDue(loans[id], now) {
        assert r[id].status != loans[id].status;
      }
    }
  }

  /** A second sweep at the same time changes nothing and counts zero. */
  lemma {:induction false} SweepOverdueIdempotent(loans: Loans, now: int)
    ensures SweepOverdue(SweepOverdue(loans, now), now) == SweepOverdue(loans, now)
    ensures |OverdueIds(SweepOverdue(loans, now), now)| == 0
  {
    var once := SweepOverdue(loans, now);
    var twice := SweepOverdue(once, now);
    assert forall id :: id in once ==> !PastDue(once[id], now) by {
      forall id | id in once ensures !PastDue(once[id], now) {
        assert id !in OverdueIds(once, now);
      }
    }
    assert twice == once;
  }

  /** The sweep keeps every loan open or closed as it was, so it keeps at most one open
      loan per (member, book). */
  lemma SweepKeepsOneOpenLoanPerPair(loans: Loans, now: int)
    requires OneOpenLoanPerPair(loans)
    ensures OneOpenLoanPerPair(SweepOverdue(loans, now))
  {
    var r := SweepOverdue(loans, now);
    assert forall id :: id in r ==> (IsOpen(r[id]) <==> IsOpen(loans[id]))
                                    && r[id].userId == loans[id].userId
                                    && r[id].bookId == loans[id].bookId;
  }
}
