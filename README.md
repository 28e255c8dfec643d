# Library lifecycle, modelled in Dafny

This project models the lifecycle rules of a library management backend, a NestJS
service layer over a Prisma database. The modelled rules are:

- borrowing, returning and renewing loans, the late fine and the overdue sweep;
- reserving, cancelling and fulfilling reservations, the expiry sweep, and the
  first-come-first-served promotion of waiting reservations;
- the guarded availability counter of a book, and the validation of book creation,
  update and removal;
- member creation, update and removal rules, fine postings and payments, and the
  per-member statistics with `canBorrow`;
- the pagination query defaults and bounds, and the page metadata.

The database is the class `Store.Library`. It holds one map per table (id to row) and
one auto-increment counter per table. `Library.Valid()` states the constraints that
every service method keeps:

- ids are positive and below their counter;
- `0 <= availableCopies <= totalCopies` for every book;
- ISBNs and emails are unique;
- a member holds at most one open (ACTIVE or OVERDUE) loan per book;
- a member holds at most one ACTIVE reservation per book.

The services are modelled one module each: `BooksService`, `UsersService`,
`LoansService` and `ReservationsService`. Each has methods that read or change
`Library` fields. Each service method's `ensures` ties the new state and the result to
the pure rules in `Books`, `Users`, `Loans` and `Reservations`. Those rule modules
state the ordered checks, the computed rows and the sweeps, and prove the properties
below about them. `Common`, `Config`, `Schema` and `Pagination` hold the error
taxonomy, the configuration defaults, the row types and table predicates, and the
pagination rules.

Modelling choices:

- **Time.** Time is integer milliseconds, and `now` is a parameter wherever the service
  reads the clock. A day is `1000 * 60 * 60 * 24` ms. `setDate(getDate() + d)` becomes
  `+ d` days of that length.
- **Money.** Money is integer cents. `FINE_PER_DAY` defaults to 100 cents (1.0), and
  the `canBorrow` threshold of 10 is 1000 cents.
- **Configuration.** Each configuration key is a field of `Config.Settings`.
  `Config.Defaults` holds the literal defaults written in the code.
- **Errors.** Each exception the services raise is a `Common.Failure`, and
  `Common.Kind` maps it to NotFound, Conflict or BadRequest. A check that fails leaves
  the database unchanged.
- **Queue order.** The promotion query orders a book's ACTIVE reservations by
  `reservationDate` only. The model breaks ties by id.
- **Book order in the promotion pass.** The model walks the picked books in id order.
- **Returns.** `returnBook` closes the loan inside a transaction, but moves the book's
  counter and posts the fine through the non-transactional client. The model follows
  the code:
  - a failed counter move undoes the closure;
  - a failed fine posting (the member row is gone) undoes the closure but keeps the
    counter move.
- **Promotion does not take copies.** The promotion pass, and `fulfill`, leave
  `availableCopies` untouched. A second pass over the same book can therefore fulfil
  more reservations than it has copies. The model states this as written: the books
  table is unchanged.
- **Where the written rules and the code differ, the model follows the code:**
  - `cancel` also accepts an EXPIRED reservation;
  - the update-time age rule fires only when the patch itself sets the type to
    STUDENT and gives a non-zero age;
  - the delete guards of books and members look only at ACTIVE loans, not OVERDUE ones.

## Model

| member | source | states |
|---|---|---|
| Store.Library.Valid | src/books/books.service.ts:357-374 | no single source site: the constraints the services' guards and the unique columns keep (the counter guard cited here, the ISBN and email checks at books.service.ts:20-28 and users.service.ts:20-26, the open-loan and active-reservation checks at loans.service.ts:41-53 and reservations.service.ts:38-48; the Prisma schema is not part of this model): ids positive and below their counters (so the next id is always fresh), copies in range, unique ISBNs and emails, one open loan and one ACTIVE reservation per (member, book) |
| Common.CeilDiv | src/common/dto/pagination.dto.ts:81 | `Math.ceil(n / d)` for `d >= 1`: the least `q` with `n <= q * d` |
| Config.MaxLoansForUserType | src/loans/loans.service.ts:470-481 | loan cap is the configured STUDENT, TEACHER or PUBLIC value; any other type string gets the fixed cap 2 |
| Config.MaxReservationsForUserType | src/reservations/reservations.service.ts:453-464 | reservation cap per type; any other type string gets the fixed cap 1 |
| Config.FallbackIsMostRestrictive | src/loans/loans.service.ts:470-481 | with the default settings the fallback cap equals the PUBLIC cap and no type's cap is smaller, for loans and reservations |
| Pagination.ParseQuery | src/common/dto/pagination.dto.ts:12-53 | a query is accepted iff `page >= 1` and `1 <= limit <= 100` when given; defaults page 1, limit 10, order desc; refusal is BadRequest |
| Pagination.NewMeta | src/common/dto/pagination.dto.ts:77-84 | inputs kept; `totalPages` is the ceiling of `total / limit`; next page iff the first `page` pages leave items over; previous page iff `page >= 2` |
| Pagination.NextPageIffItemsRemain | src/common/dto/pagination.dto.ts:81-82 | `page < totalPages` holds exactly when `page * limit < total` |
| Books.AdjustAvailable | src/books/books.service.ts:357-374 | the move succeeds iff the new count stays in `[0, totalCopies]`, changing only the available count; below 0 gives CopiesNegative, above the total CopiesExceedTotal |
| Books.AdjustRoundTrip | src/books/books.service.ts:357-374 | with a copy available, a -1 followed by a +1 succeeds and restores the book |
| Books.AdjustKeepsCatalogue | src/books/books.service.ts:357-374 | a successful counter move keeps every count in range and ISBNs unique |
| Books.CheckCreate | src/books/books.service.ts:17-55 | create passes iff total >= 1, a given available count is at most the total, and the ISBN is unused; a used non-empty ISBN gives IsbnTaken first, then TotalCopiesTooSmall and CopiesExceedTotal each exactly when they are the first guard to fail, then a clash on the unique column gives IsbnTaken; no other failure occurs |
| Books.BookFrom | src/books/books.service.ts:39-46 | the inserted book keeps the ISBN and total; the available count is the given one, or the total when none is given |
| Books.CreatedBookInRange | src/books/books.service.ts:31-42 | a created book (available defaulting to total) has `0 <= available <= total` |
| Books.CheckUpdate | src/books/books.service.ts:143-196 | update passes iff the merged counts satisfy `total >= 1` and `0 <= available <= total` and no other book has an ISBN the patch sets; a changed non-empty ISBN held by another book is refused with IsbnTaken before the counts are looked at; every failure is one of the four named |
| Books.Patched | src/books/books.service.ts:164-178 | the merged book: an absent ISBN keeps the stored one, an explicit null clears it, a string replaces it; absent counts keep the stored ones; an empty patch changes nothing |
| Books.CheckRemove | src/books/books.service.ts:198-219 | removal passes iff the book has no ACTIVE loan and no ACTIVE reservation; BookHasActiveLoans exactly when there is an ACTIVE loan, BookHasActiveReservations exactly when there is none but an ACTIVE reservation; no other failure occurs |
| Books.WriteKeepsCopiesInRange | src/books/books.service.ts:165-178 | writing a book whose counts are in range keeps all counts in range |
| Books.WriteKeepsIsbnUnique | src/books/books.service.ts:20-28 | writing a book whose ISBN no other book has keeps ISBNs unique |
| Books.UpdateKeepsIsbnUnique | src/books/books.service.ts:154-162 | an update that passes its check keeps ISBNs unique |
| BooksService.UpdateAvailableCopies | src/books/books.service.ts:348-374 | missing book is NotFound; otherwise the outcome is `AdjustAvailable`'s, written only on success; the invariant is kept |
| BooksService.Create | src/books/books.service.ts:17-55 | inserts `BookFrom(dto)` under the next id exactly when `CheckCreate` passes, else returns its failure and changes nothing |
| BooksService.Update | src/books/books.service.ts:143-196 | missing book is NotFound; writes the patched book exactly when `CheckUpdate` passes; the result is in range |
| BooksService.Remove | src/books/books.service.ts:198-226 | missing book is NotFound; deletes the row exactly when `CheckRemove` passes |
| Users.CheckCreate | src/users/users.service.ts:17-49 | create passes iff the email is unused and a STUDENT has an age of at least 5; EmailTaken exactly when the email is used; StudentTooYoung exactly when the email is free and a STUDENT has no age or one below 5 |
| Users.UserFrom | src/users/users.service.ts:33-40 | the inserted member keeps the email, type and age; the status defaults to ACTIVE and the balance to 0 when not given |
| Users.CheckUpdate | src/users/users.service.ts:150-192 | update passes iff no other member has the patched email and not (patch says STUDENT with a non-zero age below 5); EmailTaken exactly for a changed non-empty email already taken, or a unique-column clash when the age rule does not fire; StudentTooYoung exactly when there is no early clash and the age rule fires; no other failure occurs |
| Users.Patched | src/users/users.service.ts:175-182 | the merged member: each given email, type, status, balance and age replaces the stored value, each absent one keeps it, and an empty patch changes nothing |
| Users.WriteKeepsEmailUnique | src/users/users.service.ts:20-26 | writing a member whose email no other member has keeps emails unique |
| Users.UpdateKeepsEmailUnique | src/users/users.service.ts:161-169 | an update that passes its check keeps emails unique |
| Users.SetFieldsKeepsEmailUnique | src/users/users.service.ts:229-291 | rewriting a member's status or balance keeps emails unique |
| Users.CheckRemove | src/users/users.service.ts:194-220 | removal passes iff no ACTIVE loan, no ACTIVE reservation and no positive balance; each failure is reported exactly when its guard is the first to fail, in that order |
| Users.CheckPayment | src/users/users.service.ts:279-281 | a payment passes iff it is at most the balance, which then stays non-negative |
| UsersService.PostThenPay | src/users/users.service.ts:251-291 | `addFine` followed by `payFine` of the same amount on the same member: NotFound for both when the member is missing; otherwise, from a non-negative balance, the payment is accepted and every member is as before |
| Users.UserStats | src/users/users.service.ts:293-332 | `activeLoans`, `overdueLoans` (ACTIVE and past due), `totalLoans`, `activeReservations` and `totalReservations` are the sizes of those sets of the member's rows; overdue <= active <= total; `canBorrow` iff ACTIVE with a balance under 10 |
| UsersService.Create | src/users/users.service.ts:17-49 | inserts `UserFrom(dto)` exactly when `CheckCreate` passes; non-negative balances stay so |
| UsersService.Update | src/users/users.service.ts:150-192 | missing member is NotFound; writes the patched member exactly when `CheckUpdate` passes |
| UsersService.Remove | src/users/users.service.ts:194-227 | missing member is NotFound; deletes the row exactly when `CheckRemove` passes |
| UsersService.UpdateStatus | src/users/users.service.ts:229-242 | missing member is NotFound; otherwise only the status changes |
| UsersService.AddFine | src/users/users.service.ts:251-268 | missing member is NotFound; otherwise the balance rises by exactly `amount`; non-negative balances stay so for `amount >= 0` |
| UsersService.PayFine | src/users/users.service.ts:270-291 | refused iff the amount exceeds the balance; otherwise the balance falls by the amount and stays non-negative |
| UsersService.GetUserStats | src/users/users.service.ts:293-332 | NotFound for a missing member; otherwise `UserStats`: the active, overdue and active-reservation counts equal their sets' sizes, with the bounds and `canBorrow` |
| Loans.CheckBorrow | src/loans/loans.service.ts:25-68 | borrow passes iff the member exists and is ACTIVE, the book exists with a copy, no open loan for the pair, and open loans are below the cap; each of the six failures is returned exactly when its guard is the first to fail in that order, and no other failure occurs |
| Loans.NewLoan | src/loans/loans.service.ts:70-84 | the new loan is ACTIVE, for the given member and book, lent at `now`, due LOAN_DURATION_DAYS later, with no return date, no renewals and no fine |
| Loans.BorrowAddsOneOpenLoan | src/loans/loans.service.ts:56-109 | inserting the new loan adds exactly its id to the member's open loans |
| Loans.BorrowKeepsLoanInvariants | src/loans/loans.service.ts:41-68 | a borrow that passed its checks keeps one open loan per pair and leaves the member at most at the cap |
| Loans.OverdueDays | src/loans/loans.service.ts:252-254 | whole days late, rounded up: at least 1 and the ceiling of the lateness over a day |
| Loans.LateFine | src/loans/loans.service.ts:246-257 | zero when not late; otherwise the ceiling of the days late times `FINE_PER_DAY` |
| Loans.LateFineWholeDays | src/loans/loans.service.ts:252-256 | a return `k` days and part of a day late costs exactly `k + 1` days of fine |
| Loans.CheckReturn | src/loans/loans.service.ts:238-244 | return passes iff the loan is ACTIVE or OVERDUE; RETURNED is a conflict, other statuses BadRequest |
| Loans.Closed | src/loans/loans.service.ts:262-268 | closed loan is RETURNED at `now`, carrying the late fine when late, otherwise its stored fine; nothing else changes |
| Loans.FinePosted | src/loans/loans.service.ts:292-295 | amount posted is non-negative, positive iff the return is late with a positive fine, and then equals the loan's fine |
| Loans.OnTimeReturnIsFree | src/loans/loans.service.ts:246-257 | a loan returned by its due date has fine 0 and posts nothing |
| Loans.CloseKeepsOneOpenLoanPerPair | src/loans/loans.service.ts:262-268 | closing a loan keeps one open loan per pair |
| Loans.CheckRenew | src/loans/loans.service.ts:306-325 | renewal passes iff ACTIVE, below MAX_RENEWALS, and the book has no ACTIVE reservation; LoanNotRenewable, RenewalLimitReached and PendingReservations are each returned exactly when their guard is the first to fail |
| Loans.Renewed | src/loans/loans.service.ts:328-336 | due date moves LOAN_DURATION_DAYS past the old due date, renewal count rises by 1, nothing else changes |
| Loans.RenewalsBounded | src/loans/loans.service.ts:311-313 | a single renewal that passes its check leaves the loan with between 1 and MAX_RENEWALS renewals |
| Loans.RenewKeepsOneOpenLoanPerPair | src/loans/loans.service.ts:328-336 | renewing keeps one open loan per pair |
| Loans.OverdueIds | src/loans/loans.service.ts:394-403 | exactly the ACTIVE loans due before `now` |
| Loans.SweepOverdue | src/loans/loans.service.ts:425-441 | same ids; exactly the past-due loans become OVERDUE; none is left past due |
| Loans.SweepChangesExactlyOverdue | src/loans/loans.service.ts:428-440 | the rows the sweep changes are exactly those the overdue query reports |
| Loans.SweepOverdueIdempotent | src/loans/loans.service.ts:428-440 | a second sweep at the same time changes nothing and counts zero |
| Loans.SweepKeepsOneOpenLoanPerPair | src/loans/loans.service.ts:428-440 | the sweep keeps one open loan per pair |
| LoansService.Create | src/loans/loans.service.ts:25-112 | inserts `NewLoan` under the next id and takes one copy exactly when `CheckBorrow` passes, else changes nothing; the member ends at most at the cap |
| LoansService.ReturnBook | src/loans/loans.service.ts:235-301 | NotFound, status failures and counter failures give their error with nothing changed; when the fine is due and the member row is gone the result is UserNotFound with the loan unchanged and only the counter move kept; success closes the loan, returns a copy, posts the fine |
| LoansService.RenewLoan | src/loans/loans.service.ts:303-357 | missing loan is NotFound; writes `Renewed` exactly when `CheckRenew` passes |
| LoansService.FindOverdueLoans | src/loans/loans.service.ts:394-423 | reports exactly the ACTIVE loans due before `now` |
| LoansService.UpdateOverdueLoans | src/loans/loans.service.ts:425-441 | the table becomes `SweepOverdue`; the count is the number of rows changed; no past-due loan remains |
| Reservations.CheckReserve | src/reservations/reservations.service.ts:25-76 | reserving passes iff the member exists and is ACTIVE, the book exists, no ACTIVE reservation or open loan for the pair, and ACTIVE reservations are below the cap; each of the six failures is returned exactly when its guard is the first to fail in that order |
| Reservations.NewReservation | src/reservations/reservations.service.ts:79-111 | FULFILLED iff the book has a copy, else ACTIVE; expires RESERVATION_DURATION_DAYS after `now` |
| Reservations.ReserveKeepsReservationInvariants | src/reservations/reservations.service.ts:38-76 | a passed reservation keeps one ACTIVE reservation per pair and the member at most at the cap |
| Reservations.CheckCancel | src/reservations/reservations.service.ts:237-251 | cancel passes iff ACTIVE or EXPIRED; CANCELLED is a conflict, FULFILLED BadRequest |
| Reservations.CheckFulfill | src/reservations/reservations.service.ts:275-284 | fulfil passes iff ACTIVE |
| Reservations.LeaveActiveKeepsOnePerPair | src/reservations/reservations.service.ts:248-252 | moving a reservation out of ACTIVE keeps one ACTIVE reservation per pair |
| Reservations.ExpiredIds | src/reservations/reservations.service.ts:344-353 | exactly the ACTIVE reservations expiring before `now` |
| Reservations.SweepExpired | src/reservations/reservations.service.ts:375-391 | same ids; exactly the lapsed reservations become EXPIRED; none is left lapsed |
| Reservations.SweepChangesExactlyExpired | src/reservations/reservations.service.ts:378-390 | the rows the sweep changes are exactly those the expiry query reports |
| Reservations.SweepExpiredIdempotent | src/reservations/reservations.service.ts:378-390 | a second sweep at the same time changes nothing and counts zero |
| Reservations.SweepExpiredKeepsOnePerPair | src/reservations/reservations.service.ts:378-390 | the sweep keeps one ACTIVE reservation per pair |
| Reservations.Insert | src/reservations/reservations.service.ts:411-413 | inserting into a queue in order keeps it in order with exactly one more element |
| Reservations.Queue | src/reservations/reservations.service.ts:406-414 | a book's queue holds exactly its ACTIVE reservations, each reserved no later than the next |
| Reservations.PendingBooks | src/reservations/reservations.service.ts:395-405 | the query returns exactly the books with a copy available and an ACTIVE reservation, each once |
| Reservations.PendingCover | src/reservations/reservations.service.ts:395-405 | books the query leaves out would promote nothing |
| Reservations.PromotedFor | src/reservations/reservations.service.ts:421 | a book with copies promotes the first `min(availableCopies, waiting)` of its queue; others promote none |
| Reservations.PromotedIds | src/reservations/reservations.service.ts:418-429 | the reservations a pass promotes for a set of books: the rows in those books' promotion lists, all of them existing rows (that each was ACTIVE for a book with a copy is `PromotedWereWaiting`) |
| Reservations.Fulfil | src/reservations/reservations.service.ts:423-427 | the table after fulfilling a set of reservations keeps exactly the same ids |
| Reservations.FulfilOnlySetsStatus | src/reservations/reservations.service.ts:423-427 | the listed reservations become FULFILLED; only their status changes, and every other row is kept |
| Reservations.Promote | src/reservations/reservations.service.ts:393-433 | the table after a pass: same ids, and every row that changed was a waiting reservation that became FULFILLED with nothing else changed |
| Reservations.PromotedWereWaiting | src/reservations/reservations.service.ts:395-421 | only ACTIVE reservations of books with a copy available are promoted |
| Reservations.PromotionIsFair | src/reservations/reservations.service.ts:411-421 | a waiting reservation that precedes a promoted one of the same book is promoted too |
| Reservations.FulfilKeepsOnePerPair | src/reservations/reservations.service.ts:423-427 | fulfilling reservations keeps one ACTIVE reservation per pair |
| Reservations.PromotionsOwed | src/reservations/reservations.service.ts:418-429 | sum over a list of books of `min(availableCopies, waiting)` for the books with a copy, never negative |
| Reservations.PromotedTotal | src/reservations/reservations.service.ts:418-429 | the per-book promotion lists are disjoint, so handling a list of distinct books promotes exactly the sum they are owed |
| Reservations.PromotionCountIsOwed | src/reservations/reservations.service.ts:393-432 | a whole pass promotes, in total, the sum over the queried books of `min(availableCopies, waiting)` |
| ReservationsService.Create | src/reservations/reservations.service.ts:25-112 | inserts `NewReservation` under the next id exactly when `CheckReserve` passes, else changes nothing; no copy is taken |
| ReservationsService.Cancel | src/reservations/reservations.service.ts:237-273 | missing reservation is NotFound; becomes CANCELLED exactly when `CheckCancel` passes |
| ReservationsService.Fulfill | src/reservations/reservations.service.ts:275-304 | missing reservation is NotFound; becomes FULFILLED exactly when it is ACTIVE |
| ReservationsService.FindExpiredReservations | src/reservations/reservations.service.ts:344-373 | reports exactly the ACTIVE reservations expiring before `now` |
| ReservationsService.UpdateExpiredReservations | src/reservations/reservations.service.ts:375-391 | the table becomes `SweepExpired`; the count is the number of rows changed; none is left lapsed |
| ReservationsService.FulfilEach | src/reservations/reservations.service.ts:423-429 | sets each listed reservation FULFILLED and counts one per row |
| ReservationsService.PromoteBook | src/reservations/reservations.service.ts:420-430 | handles one book: its promotion list is fulfilled and counted |
| ReservationsService.UpdatePendingReservations | src/reservations/reservations.service.ts:393-433 | the table becomes `Promote` of the old one; the count is the number promoted; books unchanged |

## Left out

- The generic `update` of loans and reservations is left out (src/loans/loans.service.ts:201-233, src/reservations/reservations.service.ts:202-235). They write fields the lifecycle rules read without any lifecycle check: the loan update the return date, the renewal count and the fine, the reservation update a status other than ACTIVE and two timestamps. Because the renewal count can be reset this way, `Loans.RenewalsBounded` bounds one renewal, not a loan's lifetime. Neither update writes anything `Library.Valid()` constrains.
- The PENDING and READY reservation statuses are left out, because only that generic update can reach them.
- `findAll`, `findOne`, `findByUser`, `findAvailable`, `findByGenre`, `findPopular`, `findByIsbn` and `findByEmail` are left out. They are case-insensitive searches, arbitrary `orderBy` and paging delegated to the database. `findOne` appears only as the NotFound branch of the operations that call it.
- The `getStatistics` aggregates of books, loans and reservations are left out; they are read-only counts.
- `updateLastActivity`, and the `lastActivity`, `lastUpdated` and `addedDate` timestamps, are left out.
- Titles, authors, names, passwords and the other descriptive columns are left out; no rule reads them.
- Authentication, categories, institutions, controllers and the exception filter are not part of this model.
- Concurrency is not modelled. Each service method is one sequential step, and the interleaving of two requests between a check and its write is not captured. The one non-transactional effect visible in a single call is modelled: the counter move kept by a failed return.
- The calendar arithmetic of `setDate` is not modelled: a day is always 86 400 000 ms, with no daylight-saving shift.
- Floating-point fines are not modelled; money is whole cents.
- Referential actions of the database on delete are not modelled. A book or member removal deletes only its own row, and loans and reservations may go on referring to it.
- The order in which the promotion query returns books is the model's choice (id order). Ties in `reservationDate` are broken by id.
- The `sortOrder` string is not validated at the boundary, so any value is passed through. The model types it as ascending or descending.
- Books.CheckCreate, BooksService.Create: the boundary's `@Min(0)` on `availableCopies` is a precondition, not a modelled error path.
- UsersService.Create, UsersService.Update: the boundary's `@Min(0)` on an initial or patched balance is a precondition.
- Users.Patched: an explicit `null` in an update body is spread into the write and would clear a nullable column (`age`) or be refused by the database for a required one; the model reads every absent or null member field as "keep". Books.Patched does model the null ISBN.
- Books.Patched: an explicit `null` count passes the `??` checks but is spread into a required column, which the database refuses; the model reads it as "keep".
- UsersService.AddFine: the amount is unvalidated, so a negative amount can make a balance negative. Non-negative balances are therefore a conditional guarantee, not part of `Library.Valid()`.
