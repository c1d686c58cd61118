/**
 * Two runs of the circulation handlers on a fresh store, showing what the contracts add
 * up to: the lend / refuse / return cycle the service is built for, and the way an admin's
 * `updateBook` of `isAvailable` lets one book go out twice.
 */
module Scenario {
  import opened Common
  import opened Text
  import opened JsValue
  import opened ObjectIds
  import opened BookModel
  import opened BorrowModel
  import opened Store
  import opened BookController
  import opened BorrowController

  const Alice: UserId := "alice"
  const Bob: UserId := "bob"
  function Readers(): map<UserId, User> {
    map[Alice := User("Alice", "alice@example.com"), Bob := User("Bob", "bob@example.com")]
  }

  function Request(book: BookId): BorrowBody {
    BorrowBody(Str(book), NoDate, {})
  }

  /** What an admin's `updateBook` sends to put a lent book back on the shelf: the same fields, flag `true`. */
  function Reshelve(body: BookBody): (r: BookBody)
    requires ValidateBook(body)
    ensures ValidateBook(r) && r.isAvailable == Bool(true)
  {
    body.(isAvailable := Bool(true))
  }

  lemma RequestFacts(id: BookId)
    requires IsCanonicalId(id)
    ensures ValidateBorrow(Request(id)) && RequestedBook(Request(id)) == id
  {
    CastCanonical(id);
  }

  /** A fresh store with the two readers and one book, added by Alice. */
  method OpenLibrary(id: BookId, body: BookBody) returns (db: Database)
    requires IsCanonicalId(id) && ValidateBook(body) && PassesRequired(NewBook(body, Alice))
    ensures fresh(db) && db.Valid() && db.Consistent()
    ensures db.users == Readers() && db.books == map[id := NewBook(body, Alice)] && db.borrows == []
  {
    db := new Database(Readers());
    var created := CreateBook(db, Alice, body, id);
  }

  /** Alice borrows the book; Bob, asking for it next, is refused. */
  method LendThenRefuse(db: Database, id: BookId, now: int)
    returns (lent: Result<Receipt, BorrowError>, refused: Result<Receipt, BorrowError>)
    requires IsCanonicalId(id) && db.Valid() && db.users == Readers() && db.borrows == []
    requires id in db.books && db.books[id].isAvailable && PassesRequired(db.books[id])
    modifies db
    ensures lent == Ok(Receipt(0, now + LoanPeriod, "Alice", "alice@example.com", old(db.books)[id].title))
    ensures refused == Err(BookNotAvailable)
    ensures db.Valid() && db.users == Readers() && db.borrows == [NewBorrow(Alice, id, now)]
    ensures db.books == old(db.books)[id := old(db.books)[id].(isAvailable := false)]
  {
    RequestFacts(id);
    lent := BorrowBook(db, Alice, Request(id), now);
    refused := BorrowBook(db, Bob, Request(id), now);
  }

  /** Bob cannot return Alice's loan; Alice can, and the book is available again. */
  method ReturnForeignThenOwn(db: Database, id: BookId, now: int, later: int)
    returns (foreign: Result<Borrow, ReturnError>, returned: Result<Borrow, ReturnError>)
    requires db.Valid() && db.borrows == [NewBorrow(Alice, id, now)] && id in db.books
    modifies db
    ensures foreign == Err(ActiveRecordNotFound)
    ensures ReturnFailureReply(foreign.error) == Reply(404, "message", "Active borrow record not found")
    ensures returned == Ok(Close(NewBorrow(Alice, id, now), later))
    ensures db.Valid() && db.borrows == [Close(NewBorrow(Alice, id, now), later)]
    ensures db.books == old(db.books)[id := old(db.books)[id].(isAvailable := true)]
  {
    assert Alice != Bob by {
      assert |Alice| != |Bob|;
    }
    assert db.borrows[0].user == Alice;
    foreign := ReturnBook(db, Bob, 0, later);
    assert foreign.Err? && foreign.error.ActiveRecordNotFound?;
    returned := ReturnBook(db, Alice, 0, later);
  }

  /**
   * Alice borrows the only copy, Bob is refused, Bob cannot return Alice's loan, Alice returns
   * it, and the book is back on the shelf.
   */
  method LendingRound(id: BookId, body: BookBody, now: int, later: int)
    returns (lent: Result<Receipt, BorrowError>, refused: Result<Receipt, BorrowError>,
             foreign: Result<Borrow, ReturnError>, returned: Result<Borrow, ReturnError>,
             availableAfter: bool)
    requires IsCanonicalId(id) && ValidateBook(body) && PassesRequired(NewBook(body, Alice))
    ensures lent == Ok(Receipt(0, now + LoanPeriod, "Alice", "alice@example.com", Trim(body.title.s)))
    ensures refused == Err(BookNotAvailable)
    ensures BorrowFailureReply(refused.error, "").status == 404 && BorrowFailureReply(refused.error, "").key == "mesage"
    ensures foreign == Err(ActiveRecordNotFound)
    ensures returned.Ok? && returned.value.status == Returned && returned.value.returnedAt == Some(later)
    ensures returned.value.user == Alice && returned.value.dueDate == now + LoanPeriod
    ensures availableAfter
  {
    var db := OpenLibrary(id, body);
    lent, refused := LendThenRefuse(db, id, now);
    foreign, returned := ReturnForeignThenOwn(db, id, now, later);
    availableAfter := db.books[id].isAvailable;
  }

  /** The admin's update that puts the only book, lent or not, back on the shelf with the fields of `body`. */
  method ReshelveLent(db: Database, id: BookId, body: BookBody) returns (reshelved: Result<Book, CatalogError>)
    requires IsCanonicalId(id) && ValidateBook(body) && db.Valid() && db.books.Keys == {id}
    modifies db
    ensures reshelved.Ok? && reshelved.value.isAvailable
    ensures db.Valid() && db.users == old(db.users) && db.borrows == old(db.borrows)
    ensures db.books.Keys == {id} && db.books[id].isAvailable
    ensures db.books[id].title == Trim(body.title.s) && db.books[id].author == Trim(body.author.s)
    ensures db.books[id].isbn == body.isbn.s
  {
    CastCanonical(id);
    assert !IsbnTaken(db.books, body.isbn.s, id);
    reshelved := UpdateBook(db, id, Reshelve(body));
  }

  /** Bob borrows the reshelved book while Alice's loan of it is still open. */
  method LendAgain(db: Database, id: BookId, now: int) returns (second: Result<Receipt, BorrowError>)
    requires IsCanonicalId(id) && db.Valid() && db.users == Readers() && db.borrows == [NewBorrow(Alice, id, now)]
    requires id in db.books && db.books[id].isAvailable && PassesRequired(db.books[id])
    modifies db
    ensures second.Ok?
    ensures db.borrows == [NewBorrow(Alice, id, now), NewBorrow(Bob, id, now)]
    ensures ActiveCount(db.borrows, id) == 2
  {
    RequestFacts(id);
    second := BorrowBook(db, Bob, Request(id), now);
    ActiveCountAppend([], NewBorrow(Alice, id, now), id);
    ActiveCountAppend([NewBorrow(Alice, id, now)], NewBorrow(Bob, id, now), id);
    assert [NewBorrow(Alice, id, now)] + [NewBorrow(Bob, id, now)] == db.borrows;
  }

  /**
   * While Alice holds the book and Bob has been refused it, an admin's update sets `isAvailable`
   * back to `true`; the borrow handler then lends the same book to Bob, and two active records name it.
   */
  method DoubleLend(id: BookId, body: BookBody, now: int) returns (second: Result<Receipt, BorrowError>, activeLoans: nat)
    requires IsCanonicalId(id) && ValidateBook(body) && PassesRequired(NewBook(body, Alice))
    ensures second.Ok?
    ensures activeLoans == 2
  {
    var db := OpenLibrary(id, body);
    var first, refused := LendThenRefuse(db, id, now);
    var reshelved := ReshelveLent(db, id, body);
    second := LendAgain(db, id, now);
    activeLoans := ActiveCount(db.borrows, id);
  }

  /** Two spaces: long enough for Joi's `min(2)`, and nothing once Mongoose's `trim` has run. */
  const Blank: string := "  "

  lemma BlankTitleFacts(body: BookBody)
    requires ValidateBook(body)
    ensures ValidateBook(body.(title := Str(Blank)))
    ensures Trim(Blank) == ""
  {
    assert Utf16Length(Blank) == 2 by {
      assert Utf16Length(Blank[..1]) == 1;
    }
    assert LeadingSpaces(Blank) == 2 by {
      assert LeadingSpaces(Blank[1..]) == 1 by {
        assert Blank[1..][1..] == [];
      }
    }
  }

  /** An admin's `updateBook` of the only book that keeps every field but sets the title to two spaces. */
  method BlankTitle(db: Database, id: BookId, body: BookBody) returns (updated: Result<Book, CatalogError>)
    requires IsCanonicalId(id) && ValidateBook(body) && db.Valid() && db.books.Keys == {id}
    requires db.books[id].isAvailable && body.isAvailable.Missing?
    modifies db
    ensures updated.Ok?
    ensures db.Valid() && db.users == old(db.users) && db.borrows == old(db.borrows)
    ensures db.books.Keys == {id} && db.books[id].title == "" && db.books[id].isAvailable
  {
    BlankTitleFacts(body);
    CastCanonical(id);
    var blank := body.(title := Str(Blank));
    assert !IsbnTaken(db.books, blank.isbn.s, id);
    updated := UpdateBook(db, id, blank);
  }

  /** Alice and then Bob ask for the blank-titled book: each time a record is written and `book.save()` fails. */
  method FailedLends(db: Database, id: BookId, now: int)
    returns (first: Result<Receipt, BorrowError>, second: Result<Receipt, BorrowError>)
    requires IsCanonicalId(id) && db.Valid() && db.users == Readers() && db.borrows == []
    requires id in db.books && db.books[id].isAvailable && db.books[id].title == ""
    modifies db
    ensures first == Err(BookNotSaved) && second == Err(BookNotSaved)
    ensures |db.borrows| == 2 && id in db.books && db.books[id].isAvailable
  {
    RequestFacts(id);
    first := BorrowBook(db, Alice, Request(id), now);
    second := BorrowBook(db, Bob, Request(id), now);
  }

  /**
   * An admin's `updateBook` sets the title to two spaces, which Joi accepts and `trim` empties.
   * Each borrow after that writes an active record and then fails in `book.save()` with a 500, so
   * the book stays available while two records hold it.
   */
  method BlankTitleLend(id: BookId, body: BookBody, now: int)
    returns (first: Result<Receipt, BorrowError>, second: Result<Receipt, BorrowError>, records: nat, available: bool)
    requires IsCanonicalId(id) && ValidateBook(body) && PassesRequired(NewBook(body, Alice))
    requires body.isAvailable.Missing?
    ensures first == Err(BookNotSaved) && second == Err(BookNotSaved)
    ensures BorrowFailureReply(first.error, "").status == 500
    ensures records == 2 && available
  {
    var db := OpenLibrary(id, body);
    var updated := BlankTitle(db, id, body);
    first, second := FailedLends(db, id, now);
    records := |db.borrows|;
    available := db.books[id].isAvailable;
  }
}
