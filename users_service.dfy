/** The users service: member writes on the shared database. */
module UsersService {
  import opened Common
  import opened Config
  import opened Schema
  import opened Users
  import opened Store

  /** `create`: a member who passes the checks is inserted under the next id. With the
      boundary's `@Min(0)` on an initial balance, non-negative balances stay so. */
  method Create(db: Library, dto: NewUser) returns (r: Result<int>)
    requires db.Valid()
    requires dto.fines.Some? ==> dto.fines.value >= 0  // @Min(0)
    modifies db`users, db`nextUserId
    ensures db.Valid()
    ensures r.Ok? <==> CheckCreate(old(db.users), dto).Pass?
    ensures r.Err? ==> r.error == CheckCreate(old(db.users), dto).error
                       && db.users == old(db.users) && db.nextUserId == old(db.nextUserId)
    ensures r.Ok? ==> r.value == old(db.nextUserId) && db.nextUserId == old(db.nextUserId) + 1
                      && db.users == old(db.users)[r.value := UserFrom(dto)]
    ensures FinesNonNegative(old(db.users)) ==> FinesNonNegative(db.users)
  {
    var o := CheckCreate(db.users, dto);
    if o.Fail? {
      return Err(o.error);
    }
    var id := db.nextUserId;
    var u := UserFrom(dto);
    assert !EmailUsedByOther(db.users, u.email, Some(id)) by {
      assert !EmailUsedByOther(db.users, u.email, None);
    }
    WriteKeepsEmailUnique(db.users, id, u);
    db.users := db.users[id := u];
    db.nextUserId := id + 1;
    r := Ok(id);
  }

  /** `update`: a missing member is NotFound; a patch that passes the checks is written
      over the stored member. */
  method Update(db: Library, id: int, p: UserPatch) returns (r: Result<User>)
    requires db.Valid()
    requires p.fines.Some? ==> p.fines.value >= 0  // @Min(0)
    modifies db`users
    ensures db.Valid()
    ensures id !in old(db.users) ==> r == Err(UserNotFound)
    ensures id in old(db.users) ==>
              (r.Ok? <==> CheckUpdate(old(db.users), id, p).Pass?)
              && (r.Err? ==> r.error == CheckUpdate(old(db.users), id, p).error)
    ensures r.Ok? ==> id in old(db.users) && r.value == Patched(old(db.users)[id], p)
                      && db.users == old(db.users)[id := r.value]
    ensures r.Err? ==> db.users == old(db.users)
    ensures FinesNonNegative(old(db.users)) ==> FinesNonNegative(db.users)
  {
    if id !in db.users {
      return Err(UserNotFound);
    }
    var o := CheckUpdate(db.users, id, p);
    if o.Fail? {
      return Err(o.error);
    }
    var u := Patched(db.users[id], p);
    UpdateKeepsEmailUnique(db.users, id, p);
    db.users := db.users[id := u];
    r := Ok(u);
  }

  /** `remove`: a missing member is NotFound; a member with an ACTIVE loan, an ACTIVE
      reservation or an outstanding balance is kept; otherwise the row is deleted. */
  method Remove(db: Library, id: int) returns (r: Outcome)
    requires db.Valid()
    modifies db`users
    ensures db.Valid()
    ensures id !in old(db.users) ==> r == Fail(UserNotFound)
    ensures id in old(db.users) ==> r == CheckRemove(old(db.users)[id], db.loans, db.reservations, id)
    ensures r.Pass? ==> db.users == old(db.users) - {id}
    ensures r.Fail? ==> db.users == old(db.users)
  {
    if id !in db.users {
      return Fail(UserNotFound);
    }
    r := CheckRemove(db.users[id], db.loans, db.reservations, id);
    if r.Pass? {
      db.users := db.users - {id};
    }
  }

  /** `updateStatus`: the member's status is set, nothing else changes. */
  method UpdateStatus(db: Library, id: int, status: UserStatus) returns (r: Result<User>)
    requires db.Valid()
    modifies db`users
    ensures db.Valid()
    ensures r.Ok? <==> id in old(db.users)
    ensures r.Err? ==> r.error == UserNotFound && db.users == old(db.users)
    ensures r.Ok? ==> r.value == old(db.users)[id].(status := status)
                      && db.users == old(db.users)[id := r.value]
  {
    if id !in db.users {
      return Err(UserNotFound);
    }
    var u := db.users[id].(status := status);
    SetFieldsKeepsEmailUnique(db.users, id, u);
    db.users := db.users[id := u];
    r := Ok(u);
  }

  /** `addFine`: the balance is incremented by `amount`, which nothing validates; a
      non-negative amount keeps non-negative balances so. */
  method AddFine(db: Library, id: int, amount: int) returns (r: Result<User>)
    requires db.Valid()
    modifies db`users
    ensures db.Valid()
    ensures r.Ok? <==> id in old(db.users)
    ensures r.Err? ==> r.error == UserNotFound && db.users == old(db.users)
    ensures r.Ok? ==> r.value == old(db.users)[id].(fines := old(db.users)[id].fines + amount)
                      && db.users == old(db.users)[id := r.value]
    ensures FinesNonNegative(old(db.users)) && amount >= 0 ==> FinesNonNegative(db.users)
  {
    if id !in db.users {
      return Err(UserNotFound);
    }
    var u := db.users[id].(fines := db.users[id].fines + amount);
    SetFieldsKeepsEmailUnique(db.users, id, u);
    db.users := db.users[id := u];
    r := Ok(u);
  }

  /** A fine posted with `addFine` and then paid back in full with `payFine` leaves every
      member as it was, provided the balance was not negative to begin with. */
  method PostThenPay(db: Library, id: int, amount: int) returns (posted: Result<User>, paid: Result<User>)
    requires db.Valid()
    modifies db`users
    ensures db.Valid()
    ensures posted.Ok? <==> id in old(db.users)
    ensures id !in old(db.users) ==>
              posted == Err(UserNotFound) && paid == Err(UserNotFound) && db.users == old(db.users)
    ensures id in old(db.users) && old(db.users)[id].fines >= 0 ==>
              paid.Ok? && paid.value == old(db.users)[id] && db.users == old(db.users)
  {
    posted := AddFine(db, id, amount);
    paid := PayFine(db, id, amount);
  }

  /** `payFine`: a payment above the balance is refused; otherwise the balance is
      decremented, and it stays non-negative. */
  method PayFine(db: Library, id: int, amount: int) returns (r: Result<User>)
    requires db.Valid()
    modifies db`users
    ensures db.Valid()
    ensures id !in old(db.users) ==> r == Err(UserNotFound)
    ensures id in old(db.users) ==>
              (r.Ok? <==> amount <= old(db.users)[id].fines)
              && (r.Err? ==> r.error == PaymentExceedsFines)
    ensures r.Err? ==> db.users == old(db.users)
    ensures r.Ok? ==> id in old(db.users)
                      && r.value == old(db.users)[id].(fines := old(db.users)[id].fines - amount)
                      && r.value.fines >= 0
                      && db.users == old(db.users)[id := r.value]
    ensures FinesNonNegative(old(db.users)) ==> FinesNonNegative(db.users)
  {
    if id !in db.users {
      return Err(UserNotFound);
    }
    var o := CheckPayment(db.users[id], amount);
    if o.Fail? {
      return Err(o.error);
    }
    var u := db.users[id].(fines := db.users[id].fines - amount);
    SetFieldsKeepsEmailUnique(db.users, id, u);
    db.users := db.users[id := u];
    r := Ok(u);
  }

  /** `getUserStats` at time `now`: NotFound for a missing member; otherwise the member's
      counts, with overdue within active within total and `canBorrow` exactly for an ACTIVE
      member whose balance is under 10 currency units. */
  method GetUserStats(db: Library, id: int, now: int) returns (r: Result<Stats>)
    ensures r.Ok? <==> id in db.users
    ensures r.Err? ==> r.error == UserNotFound
    ensures r.Ok? ==> r.value == UserStats(db.users[id], db.loans, db.reservations, id, now)
    ensures r.Ok? ==> r.value.activeLoans == |ActiveLoansOf(db.loans, id)|
                      && r.value.overdueLoans == |LateActiveLoansOf(db.loans, id, now)|
                      && r.value.activeReservations == |ActiveReservationsOf(db.reservations, id)|
    ensures r.Ok? ==> 0 <= r.value.overdueLoans <= r.value.activeLoans <= r.value.totalLoans
                      && (r.value.canBorrow <==> db.users[id].fines < CAN_BORROW_FINE_LIMIT
                                                 && db.users[id].status == UserStatus.Active)
  {
    if id !in db.users {
      return Err(UserNotFound);
    }
    r := Ok(UserStats(db.users[id], db.loans, db.reservations, id, now));
  }
}
