/** The reservations service: reserving, cancelling and fulfilling on the shared database,
    the expiry sweep and the promotion pass. `now` stands for the clock the service reads. */
module ReservationsService {
  import opened Common
  import opened Config
  import opened Schema
  import opened Reservations
  import opened Store

  /** `create`: after the checks pass, the reservation is inserted under the next id,
      already FULFILLED when the book has a copy available; no copy is taken. */
  method Create(db: Library, userId: int, bookId: int, now: int, cfg: Settings) returns (r: Result<int>)
    requires db.Valid()
    modifies db`reservations, db`nextReservationId
    ensures db.Valid()
    ensures r.Ok? <==> CheckReserve(db.users, db.books, db.loans, old(db.reservations), userId, bookId, cfg).Pass?
    ensures r.Err? ==> r.error == CheckReserve(db.users, db.books, db.loans, old(db.reservations), userId, bookId, cfg).error
                       && db.reservations == old(db.reservations)
                       && db.nextReservationId == old(db.nextReservationId)
    ensures r.Ok? ==> r.value == old(db.nextReservationId)
                      && db.nextReservationId == old(db.nextReservationId) + 1
                      && bookId in db.books
                      && db.reservations == old(db.reservations)[r.value :=
                           NewReservation(userId, bookId, db.books[bookId], now, cfg)]
    ensures r.Ok? ==> userId in db.users
                      && |ActiveReservationsOf(db.reservations, userId)| <= ReservationCap(db.users[userId], cfg)
  {
    var o := CheckReserve(db.users, db.books, db.loans, db.reservations, userId, bookId, cfg);
    if o.Fail? {
      return Err(o.error);
    }
    var id := db.nextReservationId;
    ReserveKeepsReservationInvariants(db.users, db.books, db.loans, db.reservations, userId, bookId, id, now, cfg);
    db.reservations := db.reservations[id := NewReservation(userId, bookId, db.books[bookId], now, cfg)];
    db.nextReservationId := id + 1;
    r := Ok(id);
  }

  /** `cancel`: a missing reservation is NotFound; one that passes the check becomes
      CANCELLED and nothing else changes. */
  method Cancel(db: Library, id: int) returns (r: Result<Reservation>)
    requires db.Valid()
    modifies db`reservations
    ensures db.Valid()
    ensures id !in old(db.reservations) ==> r == Err(ReservationNotFound)
    ensures id in old(db.reservations) ==>
              (r.Ok? <==> CheckCancel(old(db.reservations)[id]).Pass?)
              && (r.Err? ==> r.error == CheckCancel(old(db.reservations)[id]).error)
    ensures r.Ok? ==> id in old(db.reservations)
                      && r.value == old(db.reservations)[id].(status := ReservationStatus.Cancelled)
                      && db.reservations == old(db.reservations)[id := r.value]
    ensures r.Err? ==> db.reservations == old(db.reservations)
  {
    if id !in db.reservations {
      return Err(ReservationNotFound);
    }
    var o := CheckCancel(db.reservations[id]);
    if o.Fail? {
      return Err(o.error);
    }
    var x := db.reservations[id].(status := ReservationStatus.Cancelled);
    LeaveActiveKeepsOnePerPair(db.reservations, id, ReservationStatus.Cancelled);
    db.reservations := db.reservations[id := x];
    r := Ok(x);
  }

  /** `fulfill`: a missing reservation is NotFound; an ACTIVE one becomes FULFILLED and
      nothing else changes; no copy is taken. */
  method Fulfill(db: Library, id: int) returns (r: Result<Reservation>)
    requires db.Valid()
    modifies db`reservations
    ensures db.Valid()
    ensures id !in old(db.reservations) ==> r == Err(ReservationNotFound)
    ensures id in old(db.reservations) ==>
              (r.Ok? <==> old(db.reservations)[id].status == ReservationStatus.Active)
              && (r.Err? ==> r.error == ReservationNotActive)
    ensures r.Ok? ==> id in old(db.reservations)
                      && r.value == old(db.reservations)[id].(status := ReservationStatus.Fulfilled)
                      && db.reservations == old(db.reservations)[id := r.value]
    ensures r.Err? ==> db.reservations == old(db.reservations)
  {
    if id !in db.reservations {
      return Err(ReservationNotFound);
    }
    var o := CheckFulfill(db.reservations[id]);
    if o.Fail? {
      return Err(o.error);
    }
    var x := db.reservations[id].(status := ReservationStatus.Fulfilled);
    LeaveActiveKeepsOnePerPair(db.reservations, id, ReservationStatus.Fulfilled);
    db.reservations := db.reservations[id := x];
    r := Ok(x);
  }

  /** `findExpiredReservations` at `now`: the ACTIVE reservations expiring before `now`. */
  method FindExpiredReservations(db: Library, now: int) returns (ids: set<int>)
    ensures forall id :: id in ids <==> id in db.reservations
                                        && db.reservations[id].status == ReservationStatus.Active
                                        && db.reservations[id].expirationDate < now
  {
    ids := ExpiredIds(db.reservations, now);
  }

  /** `updateExpiredReservations` at `now`: one bulk update marks every lapsed ACTIVE
      reservation EXPIRED and reports how many rows it changed; afterwards none is left. */
  method UpdateExpiredReservations(db: Library, now: int) returns (updated: nat)
    requires db.Valid()
    modifies db`reservations
    ensures db.Valid()
    ensures db.reservations == SweepExpired(old(db.reservations), now)
    ensures updated == |ExpiredIds(old(db.reservations), now)|
    ensures updated == |set id | id in old(db.reservations) && db.reservations[id] != old(db.reservations)[id]|
    ensures ExpiredIds(db.reservations, now) == {}
  {
    updated := |ExpiredIds(db.reservations, now)|;
    SweepChangesExactlyExpired(db.reservations, now);
    SweepExpiredKeepsOnePerPair(db.reservations, now);
    db.reservations := SweepExpired(db.reservations, now);
  }

  /** The inner loop of `updatePendingReservations`: the reservations in `toUpdate`, all
      distinct and none fulfilled yet, are set FULFILLED one row at a time, and each row
      written is counted. */
  method FulfilEach(db: Library, ghost rs: Schema.Reservations, ghost before: set<int>, toUpdate: seq<int>)
    returns (count: nat)
    requires db.reservations == Fulfil(rs, before)
    requires forall i :: 0 <= i < |toUpdate| ==> toUpdate[i] in rs && toUpdate[i] !in before
    requires forall a, b :: 0 <= a < b < |toUpdate| ==> toUpdate[a] != toUpdate[b]
    modifies db`reservations
    ensures db.reservations == Fulfil(rs, before + Elements(toUpdate, |toUpdate|))
    ensures count == |toUpdate|
    ensures |before + Elements(toUpdate, |toUpdate|)| == |before| + count
  {
    count := 0;
    ghost var done: set<int> := {};
    while count < |toUpdate|
      invariant 0 <= count <= |toUpdate|
      invariant done == Elements(toUpdate, count)
      invariant done !! before
      invariant db.reservations == Fulfil(rs, before + done)
      invariant |before + done| == |before| + count
    {
      var id := toUpdate[count];
      ElementsStep(toUpdate, count);
      FulfilOneMore(rs, before + done, id);
      db.reservations := db.reservations[id := db.reservations[id].(status := ReservationStatus.Fulfilled)];
      assert before + done + {id} == before + (done + {id});
      done := done + {id};
      count := count + 1;
    }
  }

  /** One book of the outer loop of `updatePendingReservations`: the first
      `availableCopies` of its queue are fulfilled, on top of the books already handled. */
  method PromoteBook(db: Library, rs: Schema.Reservations, books: Schema.Books, n: int,
                     ghost done: set<int>, bookId: int) returns (count: nat)
    requires bookId !in done
    requires db.reservations == Fulfil(rs, PromotedIds(rs, books, done, n))
    modifies db`reservations
    ensures db.reservations == Fulfil(rs, PromotedIds(rs, books, done + {bookId}, n))
    ensures |PromotedIds(rs, books, done + {bookId}, n)| == |PromotedIds(rs, books, done, n)| + count
  {
    var toUpdate := PromotedFor(rs, books, bookId, n);
    PromotedForFresh(rs, books, done, bookId, n);
    count := FulfilEach(db, rs, PromotedIds(rs, books, done, n), toUpdate);
    PromotedIdsAddBook(rs, books, done, bookId, n);
  }

  /** `updatePendingReservations`: one query picks the books that have a copy available and
      an ACTIVE reservation, each with its ACTIVE reservations oldest first; then, book by
      book, the first `availableCopies` of them are set FULFILLED one row at a time. The
      result is the promotion `Promote` describes and the count is the number of rows
      promoted. Available copies are left as they are. */
  method UpdatePendingReservations(db: Library) returns (updated: nat)
    requires db.Valid()
    modifies db`reservations
    ensures db.Valid()
    ensures db.books == old(db.books)
    ensures db.reservations == Promote(old(db.reservations), db.books, old(db.nextReservationId))
    ensures updated == |PromotedIds(old(db.reservations), db.books, db.books.Keys, old(db.nextReservationId))|
  {
    var rs, books, n := db.reservations, db.books, db.nextReservationId;
    var pending := PendingBooks(rs, books, db.nextBookId);
    ghost var done: set<int> := {};
    updated := 0;
    for i := 0 to |pending|
      invariant done == Elements(pending, i)
      invariant db.reservations == Fulfil(rs, PromotedIds(rs, books, done, n))
      invariant updated == |PromotedIds(rs, books, done, n)|
    {
      ElementsStep(pending, i);
      var count := PromoteBook(db, rs, books, n, done, pending[i]);
      updated := updated + count;
      done := done + {pending[i]};
    }
    PendingCover(rs, books, done, n);
    FulfilKeepsOnePerPair(rs, PromotedIds(rs, books, done, n));
  }
}
