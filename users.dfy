/** Member rules of the users service: creation and update validation, the removal guard,
    fine postings and payments, and the per-member statistics. */
module Users {
  import opened Common
  import opened Config
  import opened Schema

  /** A balance of at least this many cents (10 currency units) stops `canBorrow`. */
  const CAN_BORROW_FINE_LIMIT: int := 10 * CENTS

  /** Youngest age at which a member may be registered as a STUDENT. */
  const MIN_STUDENT_AGE: int := 5

  /** Some member other than `self` already has the email. */
  predicate EmailUsedByOther(users: Users, email: string, self: Option<int>) {
    exists id :: id in users && Some(id) != self && users[id].email == email
  }

  /** The fields of a create request that the rules read or store. */
  datatype NewUser = NewUser(email: string, userType: UserType, age: Option<int>,
                             status: Option<UserStatus>, fines: Option<int>)

  /** The member `create` inserts: ACTIVE and a zero balance unless given. */
  function UserFrom(dto: NewUser): (u: User)
    ensures u.email == dto.email && u.userType == dto.userType && u.age == dto.age
    ensures dto.status.None? ==> u.status == UserStatus.Active
    ensures dto.status.Some? ==> u.status == dto.status.value
    ensures dto.fines.None? ==> u.fines == 0
    ensures dto.fines.Some? ==> u.fines == dto.fines.value
  {
    User(dto.email, dto.userType,
         if dto.status.Some? then dto.status.value else UserStatus.Active,
         if dto.fines.Some? then dto.fines.value else 0,
         dto.age)
  }

  /** Validation of `create`: the email is checked first, then a STUDENT needs an age of
      at least 5 (an absent age, or 0, is refused). */
  function CheckCreate(users: Users, dto: NewUser): (o: Outcome)
    ensures o.Pass? <==> !EmailUsedByOther(users, dto.email, None)
                         && !(dto.userType == Student && (dto.age.None? || dto.age.value < MIN_STUDENT_AGE))
    ensures o == Fail(EmailTaken) <==> EmailUsedByOther(users, dto.email, None)
    ensures o == Fail(StudentTooYoung) <==>
              !EmailUsedByOther(users, dto.email, None) && dto.userType == Student
              && (dto.age.None? || dto.age.value < MIN_STUDENT_AGE)
    ensures o.Fail? ==> o.error in {EmailTaken, StudentTooYoung}
  {
    if EmailUsedByOther(users, dto.email, None) then Fail(EmailTaken)
    else if dto.userType == Student && (dto.age.None? || dto.age.value < MIN_STUDENT_AGE) then
      Fail(StudentTooYoung)
    else Pass
  }

  /** The fields of an update request that the rules read; `None` keeps the stored value. */
  datatype UserPatch = UserPatch(email: Option<string>, userType: Option<UserType>,
                                 age: Option<int>, status: Option<UserStatus>, fines: Option<int>)

  /** The stored member with the given fields of the patch written over it. */
  function Patched(u: User, p: UserPatch): (r: User)
    ensures p.email.None? ==> r.email == u.email
    ensures p.email.Some? ==> r.email == p.email.value
    ensures p.userType.None? ==> r.userType == u.userType
    ensures p.userType.Some? ==> r.userType == p.userType.value
    ensures p.status.None? ==> r.status == u.status
    ensures p.status.Some? ==> r.status == p.status.value
    ensures p.fines.None? ==> r.fines == u.fines
    ensures p.fines.Some? ==> r.fines == p.fines.value
    ensures p.age.None? ==> r.age == u.age
    ensures p.age.Some? ==> r.age == p.age
    ensures p == UserPatch(None, None, None, None, None) ==> r == u
  {
    User(if p.email.Some? then p.email.value else u.email,
         if p.userType.Some? then p.userType.value else u.userType,
         if p.status.Some? then p.status.value else u.status,
         if p.fines.Some? then p.fines.value else u.fines,
         if p.age.Some? then p.age else u.age)
  }

  /** The patch changes the email to a non-empty one another member has: refused first. */
  predicate EarlyEmailChange(users: Users, id: int, p: UserPatch)
    requires id in users
  {
    p.email.Some? && p.email.value != "" && p.email.value != users[id].email
    && EmailUsedByOther(users, p.email.value, None)
  }

  /** The update-time age rule: the patch says STUDENT and gives a non-zero age below 5. */
  predicate UnderageStudentPatch(p: UserPatch) {
    p.userType == Some(Student) && p.age.Some? && p.age.value != 0 && p.age.value < MIN_STUDENT_AGE
  }

  /** Validation of `update`: an email owned by another member is refused (early when it is
      a non-empty change, otherwise by the unique column at the write); the age rule fires
      only when the patch itself says STUDENT and gives a non-zero age below 5. */
  function CheckUpdate(users: Users, id: int, p: UserPatch): (o: Outcome)
    requires id in users
    ensures o.Pass? <==> !(p.email.Some? && EmailUsedByOther(users, p.email.value, Some(id)))
                         && !(p.userType == Some(Student) && p.age.Some? && p.age.value != 0
                              && p.age.value < MIN_STUDENT_AGE)
    ensures o == Fail(EmailTaken) <==>
              EarlyEmailChange(users, id, p)
              || (!UnderageStudentPatch(p) && p.email.Some? && EmailUsedByOther(users, p.email.value, Some(id)))
    ensures o == Fail(StudentTooYoung) <==> !EarlyEmailChange(users, id, p) && UnderageStudentPatch(p)
    ensures o.Fail? ==> o.error in {EmailTaken, StudentTooYoung}
  {
    if EarlyEmailChange(users, id, p) then Fail(EmailTaken)
    else if UnderageStudentPatch(p) then Fail(StudentTooYoung)
    else if p.email.Some? && EmailUsedByOther(users, p.email.value, Some(id)) then Fail(EmailTaken)
    else Pass
  }

  /** A member written under `id` whose email no other member has keeps emails unique. */
  lemma WriteKeepsEmailUnique(users: Users, id: int, u: User)
    requires EmailUnique(users)
    requires !EmailUsedByOther(users, u.email, Some(id))
    ensures EmailUnique(users[id := u])
  {
    var nu := users[id := u];
    forall i, j | i in nu && j in nu && i != j
      ensures nu[i].email != nu[j].email
    {
      if i == id {
        assert !(j in users && Some(j) != Some(id) && users[j].email == u.email);
      } else if j == id {
        assert !(i in users && Some(i) != Some(id) && users[i].email == u.email);
      }
    }
  }

  /** An update that passes its check keeps emails unique. */
  lemma UpdateKeepsEmailUnique(users: Users, id: int, p: UserPatch)
    requires id in users && EmailUnique(users)
    requires CheckUpdate(users, id, p).Pass?
    ensures EmailUnique(users[id := Patched(users[id], p)])
  {
    var u := Patched(users[id], p);
    if p.email.None? {
      forall j | j in users && Some(j) != Some(id)
        ensures users[j].email != u.email
      {
      }
    }
    WriteKeepsEmailUnique(users, id, u);
  }

  /** The removal guard: ACTIVE loans, then ACTIVE reservations, then an outstanding
      balance keep the member. OVERDUE loans are not looked at. */
  function CheckRemove(u: User, loans: Loans, rs: Reservations, id: int): (o: Outcome)
    ensures o.Pass? <==> ActiveLoansOf(loans, id) == {} && ActiveReservationsOf(rs, id) == {}
                         && u.fines <= 0
    ensures o == Fail(UserHasActiveLoans) <==> ActiveLoansOf(loans, id) != {}
    ensures o == Fail(UserHasActiveReservations) <==>
              ActiveLoansOf(loans, id) == {} && ActiveReservationsOf(rs, id) != {}
    ensures o == Fail(UserHasFines) <==>
              ActiveLoansOf(loans, id) == {} && ActiveReservationsOf(rs, id) == {} && u.fines > 0
  {
    if |ActiveLoansOf(loans, id)| > 0 then Fail(UserHasActiveLoans)
    else if |ActiveReservationsOf(rs, id)| > 0 then Fail(UserHasActiveReservations)
    else if u.fines > 0 then Fail(UserHasFines)
    else Pass
  }

  /** The check of `payFine`: a payment larger than the balance is refused. */
  function CheckPayment(u: User, amount: int): (o: Outcome)
    ensures o.Pass? <==> amount <= u.fines
    ensures o.Pass? ==> u.fines - amount >= 0
    ensures o.Fail? ==> o == Fail(PaymentExceedsFines)
  {
    if u.fines < amount then Fail(PaymentExceedsFines) else Pass
  }

  /** What `getUserStats` reports besides the member's own fields. */
  datatype Stats = Stats(activeLoans: int, overdueLoans: int, totalLoans: int,
                         activeReservations: int, totalReservations: int, canBorrow: bool)

  /** All loans of the member (`user.loans`). */
  function LoansOf(loans: Loans, userId: int): set<int> {
    set id | id in loans && loans[id].userId == userId
  }

  /** The member's loans counted as overdue: status ACTIVE and `now` past the due date. */
  function LateActiveLoansOf(loans: Loans, userId: int, now: int): set<int> {
    set id | id in loans && loans[id].userId == userId && loans[id].status == LoanStatus.Active
             && now > loans[id].dueDate
  }

  /** All reservations of the member (`user.reservations`). */
  function ReservationsOf(rs: Reservations, userId: int): set<int> {
    set id | id in rs && rs[id].userId == userId
  }

  /** `getUserStats` for an existing member at time `now`: the overdue count is part of the
      active count, which is part of the total; likewise for reservations; the member can
      borrow exactly when ACTIVE with a balance under 10 currency units. */
  function UserStats(u: User, loans: Loans, rs: Reservations, id: int, now: int): (s: Stats)
    ensures 0 <= s.overdueLoans <= s.activeLoans <= s.totalLoans
    ensures 0 <= s.activeReservations <= s.totalReservations
    ensures s.totalLoans == |LoansOf(loans, id)| && s.totalReservations == |ReservationsOf(rs, id)|
    ensures s.activeLoans == |ActiveLoansOf(loans, id)|
    ensures s.overdueLoans == |LateActiveLoansOf(loans, id, now)|
    ensures s.activeReservations == |ActiveReservationsOf(rs, id)|
    ensures s.canBorrow <==> u.fines < CAN_BORROW_FINE_LIMIT && u.status == UserStatus.Active
  {
    SubsetCard(LateActiveLoansOf(loans, id, now), ActiveLoansOf(loans, id));
    SubsetCard(ActiveLoansOf(loans, id), LoansOf(loans, id));
    SubsetCard(ActiveReservationsOf(rs, id), ReservationsOf(rs, id));
    Stats(|ActiveLoansOf(loans, id)|, |LateActiveLoansOf(loans, id, now)|, |LoansOf(loans, id)|,
          |ActiveReservationsOf(rs, id)|, |ReservationsOf(rs, id)|,
          u.fines < CAN_BORROW_FINE_LIMIT && u.status == UserStatus.Active)
  }

  /** Rewriting a member's row without changing the email keeps emails unique. */
  lemma SetFieldsKeepsEmailUnique(users: Users, id: int, u: User)
    requires id in users && EmailUnique(users)
    requires u.email == users[id].email
    ensures EmailUnique(users[id := u])
  {
    forall j | j in users && Some(j) != Some(id)
      ensures users[j].email != u.email
    {
    }
    WriteKeepsEmailUnique(users, id, u);
  }
}
