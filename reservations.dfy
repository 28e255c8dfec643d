/** Reservation rules of the reservations service: the checks of reserving, cancelling and
    fulfilling, the expiry sweep, and the first-come-first-served promotion of waiting
    reservations when copies are available. */
module Reservations {
  import opened Common
  import opened Config
  import opened Schema

  // ---- reserving ----

  /** The member-type cap on ACTIVE reservations for the member. */
  function ReservationCap(u: User, cfg: Settings): int {
    MaxReservationsForUserType(UserTypeName(u.userType), cfg)
  }

  /** The checks of `create`, in the order the service makes them: the member exists and is
      ACTIVE, the book exists, the member has no ACTIVE reservation and no open loan for it,
      and the member's ACTIVE reservations are below the cap of their type. Availability is
      not a condition. */
  function CheckReserve(users: Users, books: Books, loans: Loans, rs: Reservations,
                        userId: int, bookId: int, cfg: Settings): (o: Outcome)
    ensures o.Pass? <==> userId in users && users[userId].status == UserStatus.Active
                         && bookId in books
                         && !HasActiveReservation(rs, userId, bookId)
                         && !HasOpenLoan(loans, userId, bookId)
                         && |ActiveReservationsOf(rs, userId)| < ReservationCap(users[userId], cfg)
    ensures o == Fail(UserNotFound) <==> userId !in users
    ensures o == Fail(UserNotActive) <==> userId in users && users[userId].status != UserStatus.Active
    ensures o == Fail(BookNotFound) <==>
              userId in users && users[userId].status == UserStatus.Active && bookId !in books
    ensures o == Fail(ReservationAlreadyActive) <==>
              userId in users && users[userId].status == UserStatus.Active && bookId in books
              && HasActiveReservation(rs, userId, bookId)
    ensures o == Fail(LoanAlreadyOpen) <==>
              userId in users && users[userId].status == UserStatus.Active && bookId in books
              && !HasActiveReservation(rs, userId, bookId) && HasOpenLoan(loans, userId, bookId)
    ensures o == Fail(ReservationLimitReached) <==>
              userId in users && users[userId].status == UserStatus.Active && bookId in books
              && !HasActiveReservation(rs, userId, bookId) && !HasOpenLoan(loans, userId, bookId)
              && |ActiveReservationsOf(rs, userId)| >= ReservationCap(users[userId], cfg)
    ensures o.Fail? ==> o.error in {UserNotFound, UserNotActive, BookNotFound, ReservationAlreadyActive,
                                    LoanAlreadyOpen, ReservationLimitReached}
  {
    if userId !in users then Fail(UserNotFound)
    else if users[userId].status != UserStatus.Active then Fail(UserNotActive)
    else if bookId !in books then Fail(BookNotFound)
    else if HasActiveReservation(rs, userId, bookId) then Fail(ReservationAlreadyActive)
    else if HasOpenLoan(loans, userId, bookId) then Fail(LoanAlreadyOpen)
    else if |ActiveReservationsOf(rs, userId)| >= ReservationCap(users[userId], cfg) then
      Fail(ReservationLimitReached)
    else Pass
  }

  /** The row `create` inserts: made at `now`, expiring RESERVATION_DURATION_DAYS later,
      FULFILLED at once when the book has a copy available and ACTIVE (waiting) otherwise. */
  function NewReservation(userId: int, bookId: int, b: Book, now: int, cfg: Settings): (r: Reservation)
    ensures r.status == ReservationStatus.Fulfilled <==> b.availableCopies > 0
    ensures r.status == ReservationStatus.Active <==> b.availableCopies <= 0
    ensures r.expirationDate - r.reservationDate == cfg.reservationDurationDays * DAY_MS
    ensures r.userId == userId && r.bookId == bookId && r.reservationDate == now
  {
    Reservation(userId, bookId, now, AddDays(now, cfg.reservationDurationDays),
                if b.availableCopies > 0 then ReservationStatus.Fulfilled else ReservationStatus.Active)
  }

  /** A reservation that passed its checks, inserted under a fresh id, keeps at most one
      ACTIVE reservation per (member, book), and leaves the member at most at the cap. */
  lemma ReserveKeepsReservationInvariants(users: Users, books: Books, loans: Loans, rs: Reservations,
                                          userId: int, bookId: int, id: int, now: int, cfg: Settings)
    requires OneActiveReservationPerPair(rs) && id !in rs
    requires CheckReserve(users, books, loans, rs, userId, bookId, cfg).Pass?
    ensures OneActiveReservationPerPair(rs[id := NewReservation(userId, bookId, books[bookId], now, cfg)])
    ensures |ActiveReservationsOf(rs[id := NewReservation(userId, bookId, books[bookId], now, cfg)], userId)|
            <= ReservationCap(users[userId], cfg)
  {
    var r := NewReservation(userId, bookId, books[bookId], now, cfg);
    var after := ActiveReservationsOf(rs[id := r], userId);
    if r.status == ReservationStatus.Active {
      assert after == ActiveReservationsOf(rs, userId) + {id};
    } else {
      assert after == ActiveReservationsOf(rs, userId);
    }
  }

  // ---- cancelling and fulfilling ----

  /** The checks of `cancel`: a CANCELLED reservation is a conflict, a FULFILLED one cannot
      be cancelled; ACTIVE and EXPIRED ones can. */
  function CheckCancel(r: Reservation): (o: Outcome)
    ensures o.Pass? <==> r.status.Active? || r.status.Expired?
    ensures o == Fail(AlreadyCancelled) <==> r.status == ReservationStatus.Cancelled
    ensures o == Fail(CannotCancelFulfilled) <==> r.status == ReservationStatus.Fulfilled
  {
    if r.status == ReservationStatus.Cancelled then Fail(AlreadyCancelled)
    else if r.status == ReservationStatus.Fulfilled then Fail(CannotCancelFulfilled)
    else Pass
  }

  /** The check of `fulfill`: only an ACTIVE reservation can be fulfilled. */
  function CheckFulfill(r: Reservation): (o: Outcome)
    ensures o.Pass? <==> r.status == ReservationStatus.Active
    ensures o.Fail? ==> o.error == ReservationNotActive
  {
    if r.status != ReservationStatus.Active then Fail(ReservationNotActive) else Pass
  }

  /** Moving one reservation out of ACTIVE keeps at most one ACTIVE reservation per
      (member, book). */
  lemma LeaveActiveKeepsOnePerPair(rs: Reservations, id: int, s: ReservationStatus)
    requires OneActiveReservationPerPair(rs) && id in rs && s != ReservationStatus.Active
    ensures OneActiveReservationPerPair(rs[id := rs[id].(status := s)])
  {
  }

  // ---- the expiry sweep ----

  /** The filter of `findExpiredReservations` and `updateExpiredReservations`: ACTIVE and
      expiring before `now`. */
  predicate Lapsed(r: Reservation, now: int) {
    r.status == ReservationStatus.Active && r.expirationDate < now
  }

  /** The ids `findExpiredReservations` reports at `now`. */
  function ExpiredIds(rs: Reservations, now: int): (ids: set<int>)
    ensures forall id :: id in ids <==> id in rs && Lapsed(rs[id], now)
  {
    set id | id in rs && Lapsed(rs[id], now)
  }

  /** The table after `updateExpiredReservations` at `now`: exactly the lapsed reservations
      become EXPIRED, nothing else changes, and none is left lapsed. */
  function SweepExpired(rs: Reservations, now: int): (r: Reservations)
    ensures r.Keys == rs.Keys
    ensures forall id :: id in r ==> r[id] == (if Lapsed(rs[id], now)
                                               then rs[id].(status := ReservationStatus.Expired)
                                               else rs[id])
    ensures ExpiredIds(r, now) == {}
  {
    map id | id in rs :: if Lapsed(rs[id], now) then rs[id].(status := ReservationStatus.Expired)
                         else rs[id]
  }

  /** The rows the sweep changes are exactly those `findExpiredReservations` reports. */
  lemma SweepChangesExactlyExpired(rs: Reservations, now: int)
    ensures (set id | id in rs && SweepExpired(rs, now)[id] != rs[id]) == ExpiredIds(rs, now)
  {
    var r := SweepExpired(rs, now);
    forall id | id in rs
      ensures r[id] != rs[id] <==> Lapsed(rs[id], now)
    {
      if Lapsed(rs[id], now) {
        assert r[id].status != rs[id].status;
      }
    }
  }

  /** A second sweep at the same time changes nothing and counts zero. */
  lemma {:induction false} SweepExpiredIdempotent(rs: Reservations, now: int)
    ensures SweepExpired(SweepExpired(rs, now), now) == SweepExpired(rs, now)
    ensures |ExpiredIds(SweepExpired(rs, now), now)| == 0
  {
    var once := SweepExpired(rs, now);
    assert forall id :: id in once ==> !Lapsed(once[id], now) by {
      forall id | id in once ensures !Lapsed(once[id], now) {
        assert id !in ExpiredIds(once, now);
      }
    }
    assert SweepExpired(once, now) == once;
  }

  /** The sweep only moves reservations out of ACTIVE, so it keeps at most one ACTIVE
      reservation per (member, book). */
  lemma SweepExpiredKeepsOnePerPair(rs: Reservations, now: int)
    requires OneActiveReservationPerPair(rs)
    ensures OneActiveReservationPerPair(SweepExpired(rs, now))
  {
  }

  // ---- the promotion queue ----

  /** `i` comes before `j` in a book's queue: reserved earlier, or at the same instant
      with the smaller id. */
  predicate Precedes(rs: Reservations, i: int, j: int) {
    i in rs && j in rs
    && (rs[i].reservationDate < rs[j].reservationDate
        || (rs[i].reservationDate == rs[j].reservationDate && i < j))
  }

  /** `id` is an ACTIVE reservation waiting for book `bookId`. */
  predicate Waiting(rs: Reservations, id: int, bookId: int) {
    id in rs && rs[id].bookId == bookId && rs[id].status == ReservationStatus.Active
  }

  /** `q` lists reservations in strictly increasing queue order. */
  ghost predicate InQueueOrder(rs: Reservations, q: seq<int>) {
    (forall k :: 0 <= k < |q| ==> q[k] in rs)
    && (forall a, b :: 0 <= a < b < |q| ==> Precedes(rs, q[a], q[b]))
  }

  /** `q` with `x` placed after every reservation that precedes it. */
  function Insert(rs: Reservations, q: seq<int>, x: int): (r: seq<int>)
    requires x in rs && x !in q && InQueueOrder(rs, q)
    ensures forall y :: y in r <==> y in q || y == x
    ensures |r| == |q| + 1
    ensures InQueueOrder(rs, r)
  {
    if q == [] then [x]
    else if Precedes(rs, x, q[0]) then [x] + q
    else
      assert Precedes(rs, q[0], x);
      assert forall y :: y in q[1..] ==> Precedes(rs, q[0], y) by {
        forall y | y in q[1..] ensures Precedes(rs, q[0], y) {
          var k :| 0 <= k < |q[1..]| && q[1..][k] == y;
          assert q[k + 1] == y;
        }
      }
      var tail := Insert(rs, q[1..], x);
      assert forall k :: 0 <= k < |tail| ==> Precedes(rs, q[0], tail[k]) by {
        forall k | 0 <= k < |tail| ensures Precedes(rs, q[0], tail[k]) {
          assert tail[k] in tail;
        }
      }
      [q[0]] + tail
  }

  /** The ACTIVE reservations of book `bookId` with ids below `n`, oldest first: the rows
      the promotion query returns for the book (`orderBy: { reservationDate: 'asc' }`). */
  function Queue(rs: Reservations, bookId: int, n: int): (q: seq<int>)
    ensures forall y :: y in q <==> 0 <= y < n && Waiting(rs, y, bookId)
    ensures InQueueOrder(rs, q)
    decreases n
  {
    if n <= 0 then []
    else
      var q := Queue(rs, bookId, n - 1);
      if Waiting(rs, n - 1, bookId) then Insert(rs, q, n - 1) else q
  }

  /** Positions in a queue follow queue order. */
  lemma QueuePositions(rs: Reservations, q: seq<int>, a: int, b: int)
    requires InQueueOrder(rs, q) && 0 <= a < |q| && 0 <= b < |q|
    requires Precedes(rs, q[a], q[b])
    ensures a < b
  {
  }

  /** The reservations of book `bookId` that one promotion pass fulfils: the first
      `availableCopies` of its queue when the book has copies available, otherwise none. */
  function PromotedFor(rs: Reservations, books: Books, bookId: int, n: int): (p: seq<int>)
    ensures p == [] || (bookId in books && books[bookId].availableCopies > 0)
    ensures p <= Queue(rs, bookId, n)
    ensures bookId in books && books[bookId].availableCopies > 0 ==>
              |p| == Min(books[bookId].availableCopies, |Queue(rs, bookId, n)|)
  {
    if bookId in books && books[bookId].availableCopies > 0 then
      var q := Queue(rs, bookId, n);
      q[..Min(books[bookId].availableCopies, |q|)]
    else []
  }

  /** The reservations of the books in `bookIds` that a promotion pass fulfils. */
  ghost function PromotedIds(rs: Reservations, books: Books, bookIds: set<int>, n: int): (p: set<int>)
    ensures p <= rs.Keys
  {
    set id | id in rs && rs[id].bookId in bookIds && id in PromotedFor(rs, books, rs[id].bookId, n)
  }

  /** `rs` with the reservations in `ids` set to FULFILLED. */
  ghost function Fulfil(rs: Reservations, ids: set<int>): (r: Reservations)
    ensures r.Keys == rs.Keys
  {
    map id | id in rs :: if id in ids then rs[id].(status := ReservationStatus.Fulfilled) else rs[id]
  }

  /** Fulfilling sets the listed reservations FULFILLED, changes nothing but their status,
      and keeps every other row. */
  lemma FulfilOnlySetsStatus(rs: Reservations, ids: set<int>, id: int)
    requires id in rs
    ensures id in ids ==> Fulfil(rs, ids)[id].status == ReservationStatus.Fulfilled
    ensures Fulfil(rs, ids)[id].(status := rs[id].status) == rs[id]
    ensures id !in ids ==> Fulfil(rs, ids)[id] == rs[id]
  {
  }

  /** The table after `updatePendingReservations`. */
  ghost function Promote(rs: Reservations, books: Books, n: int): (r: Reservations)
    ensures r.Keys == rs.Keys
    ensures forall id :: id in rs && r[id] != rs[id] ==>
              Waiting(rs, id, rs[id].bookId) && r[id] == rs[id].(status := ReservationStatus.Fulfilled)
  {
    var ids := PromotedIds(rs, books, books.Keys, n);
    var r := Fulfil(rs, ids);
    assert forall id :: id in rs && r[id] != rs[id] ==>
             Waiting(rs, id, rs[id].bookId) && r[id] == rs[id].(status := ReservationStatus.Fulfilled) by {
      forall id | id in rs && r[id] != rs[id]
        ensures Waiting(rs, id, rs[id].bookId) && r[id] == rs[id].(status := ReservationStatus.Fulfilled)
      {
        FulfilOnlySetsStatus(rs, ids, id);
        PromotedWereWaiting(rs, books, n, id);
      }
    }
    r
  }

  /** Only waiting reservations of books with available copies are promoted. */
  lemma PromotedWereWaiting(rs: Reservations, books: Books, n: int, id: int)
    requires id in PromotedIds(rs, books, books.Keys, n)
    ensures Waiting(rs, id, rs[id].bookId)
    ensures books[rs[id].bookId].availableCopies > 0
  {
    var p := PromotedFor(rs, books, rs[id].bookId, n);
    assert id in Queue(rs, rs[id].bookId, n);
  }

  /** First come, first served: when a reservation is promoted, every reservation waiting
      for the same book that precedes it is promoted in the same pass. */
  lemma PromotionIsFair(rs: Reservations, books: Books, n: int, i: int, j: int)
    requires j in rs && j in PromotedIds(rs, books, books.Keys, n)
    requires 0 <= i < n && Waiting(rs, i, rs[j].bookId)
    requires Precedes(rs, i, j)
    ensures i in PromotedIds(rs, books, books.Keys, n)
  {
    var bk := rs[j].bookId;
    var q := Queue(rs, bk, n);
    var p := PromotedFor(rs, books, bk, n);
    var b :| 0 <= b < |p| && p[b] == j;
    var a :| 0 <= a < |q| && q[a] == i;
    assert q[b] == j;
    QueuePositions(rs, q, a, b);
    assert p[a] == i;
  }

  /** Promotion only moves reservations out of ACTIVE, so it keeps at most one ACTIVE
      reservation per (member, book). */
  lemma FulfilKeepsOnePerPair(rs: Reservations, ids: set<int>)
    requires OneActiveReservationPerPair(rs)
    ensures OneActiveReservationPerPair(Fulfil(rs, ids))
  {
  }

  // ---- the promotion pass, one row at a time ----

  /** Fulfilling one more reservation of an already partly fulfilled table. */
  lemma FulfilOneMore(rs: Reservations, ids: set<int>, id: int)
    requires id in rs
    ensures Fulfil(rs, ids)[id := Fulfil(rs, ids)[id].(status := ReservationStatus.Fulfilled)]
            == Fulfil(rs, ids + {id})
  {
    var a := Fulfil(rs, ids)[id := Fulfil(rs, ids)[id].(status := ReservationStatus.Fulfilled)];
    var b := Fulfil(rs, ids + {id});
    assert a.Keys == b.Keys;
    forall x | x in a ensures a[x] == b[x] {
    }
  }

  /** A promotion list names each reservation once. */
  lemma PromotedDistinct(rs: Reservations, books: Books, bookId: int, n: int, a: int, b: int)
    requires 0 <= a < b < |PromotedFor(rs, books, bookId, n)|
    ensures PromotedFor(rs, books, bookId, n)[a] != PromotedFor(rs, books, bookId, n)[b]
  {
    var q := Queue(rs, bookId, n);
    assert PromotedFor(rs, books, bookId, n)[a] == q[a] && PromotedFor(rs, books, bookId, n)[b] == q[b];
    assert Precedes(rs, q[a], q[b]);
  }

  /** Handling one more book adds exactly that book's promotion list. */
  lemma PromotedIdsAddBook(rs: Reservations, books: Books, done: set<int>, bookId: int, n: int)
    ensures PromotedIds(rs, books, done + {bookId}, n)
            == PromotedIds(rs, books, done, n) + Elements(PromotedFor(rs, books, bookId, n), |PromotedFor(rs, books, bookId, n)|)
  {
    var p := PromotedFor(rs, books, bookId, n);
    var lhs := PromotedIds(rs, books, done + {bookId}, n);
    var rhs := PromotedIds(rs, books, done, n) + Elements(p, |p|);
    forall x | x in rhs ensures x in lhs {
      if x !in PromotedIds(rs, books, done, n) {
        var i :| 0 <= i < |p| && p[i] == x;
        assert x in Queue(rs, bookId, n);
      }
    }
    forall x | x in lhs ensures x in rhs {
      if rs[x].bookId == bookId {
        var i :| 0 <= i < |p| && p[i] == x;
      }
    }
  }

  /** The filter of the promotion query: the book has a copy available and an ACTIVE
      reservation. */
  predicate Pending(rs: Reservations, books: Books, bookId: int) {
    bookId in books && books[bookId].availableCopies > 0 && ActiveReservationsFor(rs, bookId) != {}
  }

  /** The rows the promotion query returns, in id order: the pending books with ids below
      `m`. */
  function PendingBooks(rs: Reservations, books: Books, m: int): (l: seq<int>)
    ensures forall k :: 0 <= k < |l| ==> Pending(rs, books, l[k]) && l[k] < m
    ensures forall a, b :: 0 <= a < b < |l| ==> l[a] < l[b]
    ensures forall b :: 0 <= b < m && Pending(rs, books, b) ==> b in l
    decreases m
  {
    if m <= 0 then []
    else
      var l := PendingBooks(rs, books, m - 1);
      if Pending(rs, books, m - 1) then l + [m - 1] else l
  }

  /** Books the query leaves out promote nothing, so a pass over a set of books holding
      every pending one promotes what a pass over every book would. */
  lemma PendingCover(rs: Reservations, books: Books, c: set<int>, n: int)
    requires c <= books.Keys
    requires forall b :: Pending(rs, books, b) ==> b in c
    ensures PromotedIds(rs, books, c, n) == PromotedIds(rs, books, books.Keys, n)
  {
    forall x | x in PromotedIds(rs, books, books.Keys, n)
      ensures x in PromotedIds(rs, books, c, n)
    {
      var b := rs[x].bookId;
      assert x in Queue(rs, b, n);
      assert x in ActiveReservationsFor(rs, b);
    }
  }

  /** The first `k` entries of `s`, as a set. */
  function Elements(s: seq<int>, k: int): (e: set<int>)
    requires 0 <= k <= |s|
    ensures forall x :: x in e <==> exists i :: 0 <= i < k && s[i] == x
  {
    set i | 0 <= i < k :: s[i]
  }

  /** One more entry of a list without repeats is a new element. */
  lemma ElementsStep(s: seq<int>, k: int)
    requires 0 <= k < |s|
    requires forall a, b :: 0 <= a < b < |s| ==> s[a] != s[b]
    ensures s[k] !in Elements(s, k)
    ensures Elements(s, k + 1) == Elements(s, k) + {s[k]}
  {
  }

  /** The promotion list of a book not yet handled names distinct reservations, none of
      them promoted for the books already handled. */
  lemma PromotedForFresh(rs: Reservations, books: Books, done: set<int>, bookId: int, n: int)
    requires bookId !in done
    ensures forall i :: 0 <= i < |PromotedFor(rs, books, bookId, n)| ==>
              PromotedFor(rs, books, bookId, n)[i] in rs
              && PromotedFor(rs, books, bookId, n)[i] !in PromotedIds(rs, books, done, n)
    ensures forall a, b :: 0 <= a < b < |PromotedFor(rs, books, bookId, n)| ==>
              PromotedFor(rs, books, bookId, n)[a] != PromotedFor(rs, books, bookId, n)[b]
  {
    var p := PromotedFor(rs, books, bookId, n);
    forall i | 0 <= i < |p| ensures p[i] in rs && p[i] !in PromotedIds(rs, books, done, n) {
      assert p[i] in Queue(rs, bookId, n);
      assert Waiting(rs, p[i], bookId);
    }
    forall a, b | 0 <= a < b < |p| ensures p[a] != p[b] {
      PromotedDistinct(rs, books, bookId, n, a, b);
    }
  }

  // ---- how many reservations one pass promotes ----

  /** The promotions a pass owes the first `k` books of `l`: `min(availableCopies, waiting)`
      for each book with a copy available, nothing for the others. */
  function PromotionsOwed(rs: Reservations, books: Books, l: seq<int>, k: int, n: int): (t: int)
    requires 0 <= k <= |l|
    ensures t >= 0
    decreases k
  {
    if k == 0 then 0
    else
      var b := l[k - 1];
      PromotionsOwed(rs, books, l, k - 1, n)
      + (if b in books && books[b].availableCopies > 0 then Min(books[b].availableCopies, |Queue(rs, b, n)|) else 0)
  }

  /** A list without repeats has as many elements as entries. */
  lemma {:induction false} ElementsCount(s: seq<int>, k: int)
    requires 0 <= k <= |s|
    requires forall a, b :: 0 <= a < b < |s| ==> s[a] != s[b]
    ensures |Elements(s, k)| == k
    decreases k
  {
    if k > 0 {
      ElementsCount(s, k - 1);
      ElementsStep(s, k - 1);
    }
  }

  /** Handling the first `k` books of a list without repeats promotes exactly what those
      books are owed: the per-book promotion lists are disjoint. */
  lemma {:induction false} PromotedTotal(rs: Reservations, books: Books, l: seq<int>, k: int, n: int)
    requires 0 <= k <= |l|
    requires forall a, b :: 0 <= a < b < |l| ==> l[a] != l[b]
    ensures |PromotedIds(rs, books, Elements(l, k), n)| == PromotionsOwed(rs, books, l, k, n)
    decreases k
  {
    if k == 0 {
      assert PromotedIds(rs, books, Elements(l, 0), n) == {};
    } else {
      var done := Elements(l, k - 1);
      var b := l[k - 1];
      var p := PromotedFor(rs, books, b, n);
      PromotedTotal(rs, books, l, k - 1, n);
      ElementsStep(l, k - 1);
      PromotedIdsAddBook(rs, books, done, b, n);
      PromotedForFresh(rs, books, done, b, n);
      ElementsCount(p, |p|);
      assert PromotedIds(rs, books, done, n) !! Elements(p, |p|);
    }
  }

  /** The number of reservations a whole pass promotes is the sum, over the books the
      promotion query returns, of `min(availableCopies, waiting)`. */
  lemma PromotionCountIsOwed(rs: Reservations, books: Books, m: int, n: int)
    requires forall b :: b in books ==> 0 <= b < m
    ensures |PromotedIds(rs, books, books.Keys, n)|
            == PromotionsOwed(rs, books, PendingBooks(rs, books, m), |PendingBooks(rs, books, m)|, n)
  {
    var l := PendingBooks(rs, books, m);
    PromotedTotal(rs, books, l, |l|, n);
    forall b | Pending(rs, books, b) ensures b in Elements(l, |l|) {
      var i :| 0 <= i < |l| && l[i] == b;
    }
    PendingCover(rs, books, Elements(l, |l|), n);
  }
}
