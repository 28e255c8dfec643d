/** Catalogue rules of the books service: the guarded availability counter and the
    validation of book creation, update and removal. */
module Books {
  import opened Common
  import opened Schema

  /** Some book other than `self` already carries the ISBN. */
  predicate IsbnUsedByOther(books: Books, isbn: string, self: Option<int>) {
    exists id :: id in books && Some(id) != self && books[id].isbn == Some(isbn)
  }

  /** The check-and-compute of `updateAvailableCopies`: the new count must stay within
      [0, totalCopies]; only the available count changes. */
  function AdjustAvailable(b: Book, change: int): (r: Result<Book>)
    ensures r.Ok? <==> 0 <= b.availableCopies + change <= b.totalCopies
    ensures r.Ok? ==> r.value.availableCopies == b.availableCopies + change
                      && r.value.totalCopies == b.totalCopies && r.value.isbn == b.isbn
    ensures r.Err? ==> (r.error == CopiesNegative <==> b.availableCopies + change < 0)
    ensures r.Err? ==> r.error in {CopiesNegative, CopiesExceedTotal}
  {
    var n := b.availableCopies + change;
    if n < 0 then Err(CopiesNegative)
    else if n > b.totalCopies then Err(CopiesExceedTotal)
    else Ok(b.(availableCopies := n))
  }

  /** A book with a copy available is restored by a -1 followed by a +1, the counter
      moves of a borrow followed by its return. */
  lemma AdjustRoundTrip(b: Book)
    requires 0 < b.availableCopies <= b.totalCopies
    ensures AdjustAvailable(b, -1).Ok?
    ensures AdjustAvailable(AdjustAvailable(b, -1).value, 1) == Ok(b)
  {
  }

  /** The fields of a create request that the rules read. */
  datatype NewBook = NewBook(isbn: Option<string>, totalCopies: int, availableCopies: Option<int>)

  /** The book `create` inserts: the available count defaults to the total. */
  function BookFrom(dto: NewBook): (b: Book)
    ensures b.isbn == dto.isbn && b.totalCopies == dto.totalCopies
    ensures dto.availableCopies.Some? ==> b.availableCopies == dto.availableCopies.value
    ensures dto.availableCopies.None? ==> b.availableCopies == b.totalCopies
  {
    Book(dto.isbn, dto.totalCopies,
         if dto.availableCopies.Some? then dto.availableCopies.value else dto.totalCopies)
  }

  /** A non-empty ISBN that another book already carries: refused before the counts. */
  predicate EarlyIsbnClash(books: Books, isbn: Option<string>) {
    isbn.Some? && isbn.value != "" && IsbnUsedByOther(books, isbn.value, None)
  }

  /** Validation of `create`. A non-empty ISBN already in use is refused before anything
      else; an empty one is caught only by the unique column, when the row is written. */
  function CheckCreate(books: Books, dto: NewBook): (o: Outcome)
    ensures o.Pass? <==> dto.totalCopies >= 1
                         && (dto.availableCopies.Some? ==> dto.availableCopies.value <= dto.totalCopies)
                         && !(dto.isbn.Some? && IsbnUsedByOther(books, dto.isbn.value, None))
    ensures dto.isbn.Some? && dto.isbn.value != "" && IsbnUsedByOther(books, dto.isbn.value, None)
            ==> o == Fail(IsbnTaken)
    ensures o == Fail(TotalCopiesTooSmall) <==> !EarlyIsbnClash(books, dto.isbn) && dto.totalCopies < 1
    ensures o == Fail(CopiesExceedTotal) <==>
              !EarlyIsbnClash(books, dto.isbn) && dto.totalCopies >= 1
              && dto.availableCopies.Some? && dto.availableCopies.value > dto.totalCopies
    ensures o == Fail(IsbnTaken) <==>
              EarlyIsbnClash(books, dto.isbn)
              || (dto.totalCopies >= 1
                  && !(dto.availableCopies.Some? && dto.availableCopies.value > dto.totalCopies)
                  && dto.isbn.Some? && IsbnUsedByOther(books, dto.isbn.value, None))
    ensures o.Fail? ==> o.error in {IsbnTaken, TotalCopiesTooSmall, CopiesExceedTotal}
  {
    if EarlyIsbnClash(books, dto.isbn) then Fail(IsbnTaken)
    else if dto.totalCopies < 1 then Fail(TotalCopiesTooSmall)
    else if dto.availableCopies.Some? && dto.availableCopies.value > dto.totalCopies then
      Fail(CopiesExceedTotal)
    else if dto.isbn.Some? && IsbnUsedByOther(books, dto.isbn.value, None) then
      Fail(IsbnTaken)
    else Pass
  }

  /** A created book satisfies the counter invariant, given the boundary's `@Min(0)` on the
      available count. */
  lemma CreatedBookInRange(books: Books, dto: NewBook)
    requires CheckCreate(books, dto).Pass?
    requires dto.availableCopies.Some? ==> dto.availableCopies.value >= 0
    ensures 0 <= BookFrom(dto).availableCopies <= BookFrom(dto).totalCopies
  {
  }

  /** The ISBN field of an update body: absent (the column is kept), an explicit `null`
      (the spread writes it and clears the column), or a string. */
  datatype IsbnEdit = KeepIsbn | ClearIsbn | SetIsbn(isbn: string)

  /** The fields of an update request that the rules read; `None` keeps the stored count. */
  datatype BookPatch = BookPatch(isbn: IsbnEdit, totalCopies: Option<int>, availableCopies: Option<int>)

  /** The stored book with the given fields of the patch written over it. */
  function Patched(b: Book, p: BookPatch): (r: Book)
    ensures r.isbn == (match p.isbn
                       case KeepIsbn => b.isbn
                       case ClearIsbn => None
                       case SetIsbn(s) => Some(s))
    ensures p.totalCopies.None? ==> r.totalCopies == b.totalCopies
    ensures p.totalCopies.Some? ==> r.totalCopies == p.totalCopies.value
    ensures p.availableCopies.None? ==> r.availableCopies == b.availableCopies
    ensures p.availableCopies.Some? ==> r.availableCopies == p.availableCopies.value
    ensures p == BookPatch(KeepIsbn, None, None) ==> r == b
  {
    Book(match p.isbn
         case KeepIsbn => b.isbn
         case ClearIsbn => None
         case SetIsbn(s) => Some(s),
         if p.totalCopies.Some? then p.totalCopies.value else b.totalCopies,
         if p.availableCopies.Some? then p.availableCopies.value else b.availableCopies)
  }

  /** The patch changes the ISBN to a non-empty one that another book carries: refused
      before the counts are looked at. */
  predicate EarlyIsbnChange(books: Books, id: int, p: BookPatch)
    requires id in books
  {
    p.isbn.SetIsbn? && p.isbn.isbn != "" && Some(p.isbn.isbn) != books[id].isbn
    && IsbnUsedByOther(books, p.isbn.isbn, None)
  }

  /** Validation of `update` on an existing book: a changed non-empty ISBN taken by
      another book is refused first, then the merged counts are checked (total at least 1,
      available at most total, available not negative), and a clash on the unique column
      is refused when the row is written. */
  function CheckUpdate(books: Books, id: int, p: BookPatch): (o: Outcome)
    requires id in books
    ensures o.Pass? <==> 0 <= Patched(books[id], p).availableCopies <= Patched(books[id], p).totalCopies
                         && Patched(books[id], p).totalCopies >= 1
                         && !(p.isbn.SetIsbn? && IsbnUsedByOther(books, p.isbn.isbn, Some(id)))
    ensures (p.isbn.SetIsbn? && p.isbn.isbn != "" && Some(p.isbn.isbn) != books[id].isbn
             && IsbnUsedByOther(books, p.isbn.isbn, Some(id))) ==> o == Fail(IsbnTaken)
    ensures o == Fail(IsbnTaken) ==> p.isbn.SetIsbn? && IsbnUsedByOther(books, p.isbn.isbn, Some(id))
    ensures o == Fail(TotalCopiesTooSmall) <==>
              !EarlyIsbnChange(books, id, p) && Patched(books[id], p).totalCopies < 1
    ensures o == Fail(CopiesExceedTotal) <==>
              !EarlyIsbnChange(books, id, p) && Patched(books[id], p).totalCopies >= 1
              && Patched(books[id], p).availableCopies > Patched(books[id], p).totalCopies
    ensures o == Fail(CopiesNegative) <==>
              !EarlyIsbnChange(books, id, p) && Patched(books[id], p).totalCopies >= 1
              && Patched(books[id], p).availableCopies <= Patched(books[id], p).totalCopies
              && Patched(books[id], p).availableCopies < 0
    ensures o == Fail(IsbnTaken) <==>
              EarlyIsbnChange(books, id, p)
              || (1 <= Patched(books[id], p).totalCopies
                  && 0 <= Patched(books[id], p).availableCopies <= Patched(books[id], p).totalCopies
                  && p.isbn.SetIsbn? && IsbnUsedByOther(books, p.isbn.isbn, Some(id)))
    ensures o.Fail? ==> o.error in {IsbnTaken, TotalCopiesTooSmall, CopiesExceedTotal, CopiesNegative}
  {
    var b := books[id];
    var merged := Patched(b, p);
    if EarlyIsbnChange(books, id, p) then Fail(IsbnTaken)
    else if merged.totalCopies < 1 then Fail(TotalCopiesTooSmall)
    else if merged.availableCopies > merged.totalCopies then Fail(CopiesExceedTotal)
    else if merged.availableCopies < 0 then Fail(CopiesNegative)
    else if p.isbn.SetIsbn? && IsbnUsedByOther(books, p.isbn.isbn, Some(id)) then Fail(IsbnTaken)
    else Pass
  }

  /** The removal guard: a book with an ACTIVE loan or an ACTIVE reservation stays. */
  function CheckRemove(loans: Loans, rs: Reservations, id: int): (o: Outcome)
    ensures o.Pass? <==> ActiveLoansFor(loans, id) == {} && ActiveReservationsFor(rs, id) == {}
    ensures o == Fail(BookHasActiveLoans) <==> ActiveLoansFor(loans, id) != {}
    ensures o == Fail(BookHasActiveReservations) <==>
              ActiveLoansFor(loans, id) == {} && ActiveReservationsFor(rs, id) != {}
    ensures o.Fail? ==> o.error in {BookHasActiveLoans, BookHasActiveReservations}
  {
    if |ActiveLoansFor(loans, id)| > 0 then Fail(BookHasActiveLoans)
    else if |ActiveReservationsFor(rs, id)| > 0 then Fail(BookHasActiveReservations)
    else Pass
  }

  // ---- the catalogue invariants are kept by every write the rules allow ----

  /** Writing a book whose counts are in range keeps `CopiesInRange`. */
  lemma WriteKeepsCopiesInRange(books: Books, id: int, b: Book)
    requires CopiesInRange(books)
    requires 0 <= b.availableCopies <= b.totalCopies
    ensures CopiesInRange(books[id := b])
  {
  }

  /** A book written under `id` whose ISBN no other book carries keeps ISBNs unique. */
  lemma WriteKeepsIsbnUnique(books: Books, id: int, b: Book)
    requires IsbnUnique(books)
    requires b.isbn.Some? ==> !IsbnUsedByOther(books, b.isbn.value, Some(id))
    ensures IsbnUnique(books[id := b])
  {
    var nb := books[id := b];
    forall i, j | i in nb && j in nb && i != j && nb[i].isbn.Some?
      ensures nb[i].isbn != nb[j].isbn
    {
      if i == id {
        assert !(j in books && Some(j) != Some(id) && books[j].isbn == Some(b.isbn.value));
      } else if j == id {
        if b.isbn.Some? {
          assert !(i in books && Some(i) != Some(id) && books[i].isbn == Some(b.isbn.value));
        }
      }
    }
  }

  /** An update that passes its check keeps ISBNs unique. */
  lemma UpdateKeepsIsbnUnique(books: Books, id: int, p: BookPatch)
    requires id in books && IsbnUnique(books)
    requires CheckUpdate(books, id, p).Pass?
    ensures IsbnUnique(books[id := Patched(books[id], p)])
  {
    var b := Patched(books[id], p);
    if b.isbn.Some? && p.isbn.KeepIsbn? {
      forall j | j in books && Some(j) != Some(id)
        ensures books[j].isbn != Some(b.isbn.value)
      {
      }
    }
    WriteKeepsIsbnUnique(books, id, b);
  }

  /** A counter move that passed `AdjustAvailable` keeps both catalogue invariants. */
  lemma AdjustKeepsCatalogue(books: Books, id: int, change: int)
    requires id in books && CopiesInRange(books) && IsbnUnique(books)
    requires AdjustAvailable(books[id], change).Ok?
    ensures CopiesInRange(books[id := AdjustAvailable(books[id], change).value])
    ensures IsbnUnique(books[id := AdjustAvailable(books[id], change).value])
  {
    var b := AdjustAvailable(books[id], change).value;
    if b.isbn.Some? {
      forall j | j in books && Some(j) != Some(id)
        ensures books[j].isbn != Some(b.isbn.value)
      {
      }
    }
    WriteKeepsIsbnUnique(books, id, b);
  }
}
