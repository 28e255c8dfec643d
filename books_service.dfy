/** The books service: catalogue writes on the shared database. */
module BooksService {
  import opened Common
  import opened Schema
  import opened Books
  import opened Store

  /** `updateAvailableCopies(id, change)`: the single guarded read-check-write of the
      availability counter. A missing book is NotFound; a move that would take the counter
      below 0 or above the total is refused; either way nothing changes. */
  method UpdateAvailableCopies(db: Library, id: int, change: int) returns (r: Result<Book>)
    requires db.Valid()
    modifies db`books
    ensures db.Valid()
    ensures id !in old(db.books) ==> r == Err(BookNotFound)
    ensures id in old(db.books) ==> r == AdjustAvailable(old(db.books)[id], change)
    ensures r.Ok? ==> db.books == old(db.books)[id := r.value]
    ensures r.Ok? ==> 0 <= r.value.availableCopies <= r.value.totalCopies
    ensures r.Err? ==> db.books == old(db.books)
  {
    if id !in db.books {
      return Err(BookNotFound);
    }
    r := AdjustAvailable(db.books[id], change);
    if r.Ok? {
      AdjustKeepsCatalogue(db.books, id, change);
      db.books := db.books[id := r.value];
    }
  }

  /** `create`: a book that passes the checks is inserted under the next id. */
  method Create(db: Library, dto: NewBook) returns (r: Result<int>)
    requires db.Valid()
    requires dto.availableCopies.Some? ==> dto.availableCopies.value >= 0  // @Min(0)
    modifies db`books, db`nextBookId
    ensures db.Valid()
    ensures r.Ok? <==> CheckCreate(old(db.books), dto).Pass?
    ensures r.Err? ==> r.error == CheckCreate(old(db.books), dto).error
    ensures r.Err? ==> db.books == old(db.books) && db.nextBookId == old(db.nextBookId)
    ensures r.Ok? ==> r.value == old(db.nextBookId) && db.nextBookId == old(db.nextBookId) + 1
                      && db.books == old(db.books)[r.value := BookFrom(dto)]
  {
    var o := CheckCreate(db.books, dto);
    if o.Fail? {
      return Err(o.error);
    }
    var id := db.nextBookId;
    var b := BookFrom(dto);
    CreatedBookInRange(db.books, dto);
    WriteKeepsCopiesInRange(db.books, id, b);
    if b.isbn.Some? {
      assert !IsbnUsedByOther(db.books, b.isbn.value, Some(id)) by {
        assert !IsbnUsedByOther(db.books, b.isbn.value, None);
      }
    }
    WriteKeepsIsbnUnique(db.books, id, b);
    db.books := db.books[id := b];
    db.nextBookId := id + 1;
    r := Ok(id);
  }

  /** `update`: a missing book is NotFound; a patch that passes the checks is written over
      the stored book. */
  method Update(db: Library, id: int, p: BookPatch) returns (r: Result<Book>)
    requires db.Valid()
    modifies db`books
    ensures db.Valid()
    ensures id !in old(db.books) ==> r == Err(BookNotFound)
    ensures id in old(db.books) ==>
              (r.Ok? <==> CheckUpdate(old(db.books), id, p).Pass?)
              && (r.Err? ==> r.error == CheckUpdate(old(db.books), id, p).error)
    ensures r.Ok? ==> id in old(db.books) && r.value == Patched(old(db.books)[id], p)
                      && db.books == old(db.books)[id := r.value]
                      && 0 <= r.value.availableCopies <= r.value.totalCopies
    ensures r.Err? ==> db.books == old(db.books)
  {
    if id !in db.books {
      return Err(BookNotFound);
    }
    var o := CheckUpdate(db.books, id, p);
    if o.Fail? {
      return Err(o.error);
    }
    var b := Patched(db.books[id], p);
    WriteKeepsCopiesInRange(db.books, id, b);
    UpdateKeepsIsbnUnique(db.books, id, p);
    db.books := db.books[id := b];
    r := Ok(b);
  }

  /** `remove`: a missing book is NotFound; a book with an ACTIVE loan or ACTIVE reservation
      is kept; otherwise its row is deleted. */
  method Remove(db: Library, id: int) returns (r: Outcome)
    requires db.Valid()
    modifies db`books
    ensures db.Valid()
    ensures id !in old(db.books) ==> r == Fail(BookNotFound)
    ensures id in old(db.books) ==> r == CheckRemove(db.loans, db.reservations, id)
    ensures r.Pass? ==> db.books == old(db.books) - {id}
    ensures r.Fail? ==> db.books == old(db.books)
  {
    if id !in db.books {
      return Fail(BookNotFound);
    }
    r := CheckRemove(db.loans, db.reservations, id);
    if r.Pass? {
      db.books := db.books - {id};
    }
  }
}
