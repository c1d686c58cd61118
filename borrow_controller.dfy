/**
 * The circulation handlers: listing the ledger, lending a book and taking it back.
 * Each handler runs to completion on the store; the clock reading `now` is a parameter
 * and the requester's id is the one the token verifier attached to the request.
 */
module BorrowController {
  import opened Common
  import opened JsValue
  import opened ObjectIds
  import opened Paging
  import opened BookModel
  import opened BorrowModel
  import opened Store

  // ----- getAllBorrows -----

  /** The query string of `GET /borrows`; `page` and `limit` as numbers. */
  datatype BorrowQuery = BorrowQuery(status: Option<string>, page: Option<int>, limit: Option<int>)

  datatype BorrowEntry = BorrowEntry(id: nat, record: Borrow)

  /** The borrows collection with each record's id. */
  function Ledger(borrows: seq<Borrow>): (entries: seq<BorrowEntry>)
    ensures |entries| == |borrows|
    ensures forall i :: 0 <= i < |borrows| ==> entries[i] == BorrowEntry(i, borrows[i])
  {
    seq(|borrows|, i requires 0 <= i < |borrows| => BorrowEntry(i, borrows[i]))
  }

  /** `status ? { status } : {}`: a non-empty status selects records whose status has exactly that name. */
  predicate Selects(status: Option<string>, r: Borrow) {
    status.None? || status.value == "" || StatusName(r.status) == status.value
  }

  /** The query filter as a test on ledger entries. */
  function Selector(status: Option<string>): BorrowEntry -> bool {
    (e: BorrowEntry) => Selects(status, e.record)
  }

  /** `Borrow.find(filter)`, in natural order. */
  function Selected(borrows: seq<Borrow>, status: Option<string>): seq<BorrowEntry> {
    Filter(Ledger(borrows), Selector(status))
  }

  /** `getAllBorrows` (controllers/borrow_controller.js:6-17), without the display-only `populate` joins. */
  function GetAllBorrows(borrows: seq<Borrow>, q: BorrowQuery): (page: seq<BorrowEntry>)
    requires InRange(q.page, q.limit)
    ensures |page| <= LimitOf(q.limit)
    ensures |page| == if Offset(PageOf(q.page), LimitOf(q.limit)) >= |Selected(borrows, q.status)| then 0
                      else Min(LimitOf(q.limit), |Selected(borrows, q.status)| - Offset(PageOf(q.page), LimitOf(q.limit)))
    ensures forall k :: 0 <= k < |page| ==>
              page[k].id < |borrows| && page[k].record == borrows[page[k].id] && Selects(q.status, page[k].record)
    ensures forall k :: 0 <= k < |page| ==>
              Offset(PageOf(q.page), LimitOf(q.limit)) + k < |Selected(borrows, q.status)|
              && page[k] == Selected(borrows, q.status)[Offset(PageOf(q.page), LimitOf(q.limit)) + k]
  {
    var all := Selected(borrows, q.status);
    FilterWithin(Ledger(borrows), Selector(q.status));
    var page := Paginate(all, PageOf(q.page), LimitOf(q.limit));
    assert forall k :: 0 <= k < |page| ==> page[k] in all;
    page
  }

  /** The selection holds every matching record, each once, in insertion order. */
  lemma SelectedIsExact(borrows: seq<Borrow>, status: Option<string>)
    ensures forall e :: e in Selected(borrows, status) <==>
              e.id < |borrows| && e.record == borrows[e.id] && Selects(status, e.record)
    ensures IncreasingBy(Selected(borrows, status), (e: BorrowEntry) => e.id as int)
  {
    var keep := Selector(status);
    var all := Ledger(borrows);
    forall e: BorrowEntry ensures e in Filter(all, keep) <==> e.id < |borrows| && e.record == borrows[e.id] && keep(e) {
      if e in Filter(all, keep) {
        FilterWithin(all, keep);
        var k :| 0 <= k < |Filter(all, keep)| && Filter(all, keep)[k] == e;
      }
      if e.id < |borrows| && e.record == borrows[e.id] && keep(e) {
        assert all[e.id] == e;
        FilterKeeps(all, keep, e.id);
      }
    }
    FilterKeepsOrder(all, keep, (e: BorrowEntry) => e.id as int);
  }

  /** Every matching record is listed on some page, for any page size. */
  lemma EveryMatchIsListed(borrows: seq<Borrow>, status: Option<string>, limit: int, i: nat)
    returns (page: int)
    requires limit >= 1 && i < |borrows| && Selects(status, borrows[i])
    ensures page >= 1
    ensures BorrowEntry(i, borrows[i]) in GetAllBorrows(borrows, BorrowQuery(status, Some(page), Some(limit)))
  {
    var e := BorrowEntry(i, borrows[i]);
    var all := Selected(borrows, status);
    assert e in all by {
      var keep := Selector(status);
      assert Ledger(borrows)[i] == e && keep(e);
      FilterKeeps(Ledger(borrows), keep, i);
    }
    var rank :| 0 <= rank < |all| && all[rank] == e;
    PagePosition(all, rank, limit);
    page := rank / limit + 1;
    var listed := GetAllBorrows(borrows, BorrowQuery(status, Some(page), Some(limit)));
    assert listed == Paginate(all, page, limit);
    assert listed[rank % limit] == e;
  }

  /** With no query at all the listing is the first ten records of the ledger. */
  lemma DefaultListing(borrows: seq<Borrow>)
    ensures GetAllBorrows(borrows, BorrowQuery(None, None, None)) == Ledger(borrows)[..Min(10, |borrows|)]
  {
    FilterAll(Ledger(borrows), Selector(None));
  }

  // ----- borrowBook -----

  /**
   * The failures of `borrowBook`: the four checks, and `BookNotSaved`, the ValidationError that
   * `book.save()` throws after the record is written when the stored title or author is empty.
   */
  datatype BorrowError = InvalidBody | UserNotFound | BookNotFound | BookNotAvailable | BookNotSaved

  /**
   * What `borrowBook` answers for each failure (controllers/borrow_controller.js:20-44). The 400
   * carries Joi's first error message `joiMessage`, whose wording is not modelled; the three checks
   * after it are 404s, and the "not available" answer spells its key `mesage`. The thrown
   * ValidationError reaches Express's default handler, a 500 whose page is not JSON (empty key and text).
   */
  function BorrowFailureReply(e: BorrowError, joiMessage: string): (r: Reply)
    ensures r.status == if e.InvalidBody? then 400 else if e.BookNotSaved? then 500 else 404
    ensures r.key == if e.BookNotAvailable? then "mesage" else if e.BookNotSaved? then "" else "message"
    ensures e.InvalidBody? ==> r.text == joiMessage
  {
    match e
    case InvalidBody => Reply(400, "message", joiMessage)
    case UserNotFound => Reply(404, "message", "user does not exisit")
    case BookNotFound => Reply(404, "message", "book does not exisit")
    case BookNotAvailable => Reply(404, "mesage", "book is not available")
    case BookNotSaved => Reply(500, "", "")
  }

  /** A client can tell every failure of `borrowBook` from its answer. */
  lemma BorrowRepliesDiffer(e1: BorrowError, e2: BorrowError, joiMessage: string)
    requires e1 != e2
    ensures BorrowFailureReply(e1, joiMessage) != BorrowFailureReply(e2, joiMessage)
  {
    if (e1.UserNotFound? && e2.BookNotFound?) || (e1.BookNotFound? && e2.UserNotFound?) {
      assert "user does not exisit"[0] != "book does not exisit"[0];
    }
  }

  /** The 201 answer: the new record's id and due date, the borrower's name and email, the book's title. */
  datatype Receipt = Receipt(borrowId: nat, dueDate: int, userName: string, userEmail: string, bookTitle: string)

  /** The checks of `borrowBook`, in the order it makes them: the first that fails, or the book to lend. */
  function BorrowCheck(users: map<UserId, User>, books: map<BookId, Book>, userId: UserId, body: BorrowBody)
    : (r: Result<BookId, BorrowError>)
    ensures !ValidateBorrow(body) ==> r == Err(InvalidBody)
    ensures ValidateBorrow(body) && userId !in users ==> r == Err(UserNotFound)
    ensures ValidateBorrow(body) && userId in users && RequestedBook(body) !in books ==> r == Err(BookNotFound)
    ensures ValidateBorrow(body) && userId in users && RequestedBook(body) in books
            && !books[RequestedBook(body)].isAvailable
            ==> r == Err(BookNotAvailable)
    ensures r.Ok? <==>
              ValidateBorrow(body) && userId in users && RequestedBook(body) in books
              && books[RequestedBook(body)].isAvailable
    ensures r.Ok? ==> ValidateBorrow(body) && r.value == RequestedBook(body)
  {
    if !ValidateBorrow(body) then Err(InvalidBody)
    else if userId !in users then Err(UserNotFound)
    else if RequestedBook(body) !in books then Err(BookNotFound)
    else if !books[RequestedBook(body)].isAvailable then Err(BookNotAvailable)
    else Ok(RequestedBook(body))
  }

  /** `Borrow.create` (controllers/borrow_controller.js:38-41): one active record for that user and book is appended. */
  method RecordLoan(db: Database, userId: UserId, id: BookId, now: int)
    requires db.Valid()
    modifies db
    ensures db.Valid()
    ensures db.users == old(db.users) && db.shelf == old(db.shelf) && db.books == old(db.books)
    ensures db.borrows == old(db.borrows) + [NewBorrow(userId, id, now)]
  {
    var record := NewBorrow(userId, id, now);
    NewBorrowWellFormed(userId, id, now);
    RecordKeepsStock(db.shelf, db.books, db.borrows, |db.borrows|, record);
    db.borrows := db.borrows + [record];
  }

  /**
   * The success path of `borrowBook` (controllers/borrow_controller.js:38-57): `Borrow.create`, then
   * the flag is flipped and `book.save()` passes Mongoose's validation, then the receipt is answered.
   */
  method Lend(db: Database, userId: UserId, id: BookId, now: int) returns (receipt: Receipt)
    requires db.Valid() && userId in db.users && id in db.books && db.books[id].isAvailable
    requires PassesRequired(db.books[id])
    modifies db
    ensures db.Valid()
    ensures db.users == old(db.users) && db.shelf == old(db.shelf)
    ensures db.borrows == old(db.borrows) + [NewBorrow(userId, id, now)]
    ensures db.books == old(db.books)[id := old(db.books)[id].(isAvailable := false)]
    ensures receipt == Receipt(|old(db.borrows)|, now + LoanPeriod,
                               old(db.users)[userId].name, old(db.users)[userId].email,
                               old(db.books)[id].title)
    ensures old(db.Consistent()) ==> db.Consistent()
  {
    var before, book := db.borrows, db.books[id];
    ghost var consistent := db.Consistent();
    // Borrow.create runs before the flag is flipped
    RecordLoan(db, userId, id, now);
    FlagKeepsStock(db.shelf, db.books, db.borrows, id, false);
    db.books := db.books[id := book.(isAvailable := false)];
    if consistent {
      LendKeepsInvariant(old(db.books), before, id, NewBorrow(userId, id, now));
    }
    var user := db.users[userId];
    receipt := Receipt(|before|, now + LoanPeriod, user.name, user.email, book.title);
  }

  /**
   * `borrowBook` (controllers/borrow_controller.js:19-58): fails as `BorrowCheck` says with nothing
   * changed; otherwise writes the record, and then either `book.save()` fails Mongoose's `required`
   * (a 500, the flag still set, the invariant broken) or the flag is flipped and the receipt answered.
   */
  method BorrowBook(db: Database, userId: UserId, body: BorrowBody, now: int)
    returns (r: Result<Receipt, BorrowError>)
    requires db.Valid()
    modifies db
    ensures db.Valid()
    ensures db.users == old(db.users) && db.shelf == old(db.shelf)
    ensures BorrowCheck(old(db.users), old(db.books), userId, body).Err? ==>
              && r == Err(BorrowCheck(old(db.users), old(db.books), userId, body).error)
              && db.books == old(db.books) && db.borrows == old(db.borrows)
    // the record is written, then `book.save()` throws: the book stays available while held
    ensures BorrowCheck(old(db.users), old(db.books), userId, body).Ok? ==>
              var id := BorrowCheck(old(db.users), old(db.books), userId, body).value;
              !PassesRequired(old(db.books)[id]) ==>
                && r == Err(BookNotSaved)
                && db.borrows == old(db.borrows) + [NewBorrow(userId, id, now)]
                && db.books == old(db.books)
                && !db.Consistent()
    ensures r.Ok? <==>
              && BorrowCheck(old(db.users), old(db.books), userId, body).Ok?
              && PassesRequired(old(db.books)[BorrowCheck(old(db.users), old(db.books), userId, body).value])
    // success: one active record appended, that book flipped, nothing else touched
    ensures r.Ok? ==>
              userId in old(db.users)
              && var id := BorrowCheck(old(db.users), old(db.books), userId, body).value;
                 id in old(db.books)
                 && db.borrows == old(db.borrows) + [NewBorrow(userId, id, now)]
                 && db.books == old(db.books)[id := old(db.books)[id].(isAvailable := false)]
                 && r.value == Receipt(|old(db.borrows)|, now + LoanPeriod,
                                       old(db.users)[userId].name, old(db.users)[userId].email,
                                       old(db.books)[id].title)
    ensures old(db.Consistent()) && r != Err(BookNotSaved) ==> db.Consistent()
  {
    var check := BorrowCheck(db.users, db.books, userId, body);
    if check.Err? {
      return Err(check.error);
    }
    var id := check.value;
    if !PassesRequired(db.books[id]) {
      // Borrow.create succeeds; book.save() then fails `required` on the empty title or author
      RecordLoan(db, userId, id, now);
      UnflippedLendBreaksInvariant(db.books, old(db.borrows), id, NewBorrow(userId, id, now));
      return Err(BookNotSaved);
    }
    var receipt := Lend(db, userId, id, now);
    r := Ok(receipt);
  }

  // ----- returnBook -----

  /** The one failure of `returnBook`: wrong id, someone else's record and a closed record all look alike. */
  datatype ReturnError = ActiveRecordNotFound

  /** The answer to every failed return (controllers/borrow_controller.js:67-68). */
  function ReturnFailureReply(e: ReturnError): (r: Reply)
    ensures r.status == 404 && r.key == "message"
  {
    Reply(404, "message", "Active borrow record not found")
  }

  /** `Borrow.findOne({ _id: borrowId, status: "active", user: userId })` finds a record. */
  predicate IsOwnActiveLoan(borrows: seq<Borrow>, borrowId: int, userId: UserId) {
    0 <= borrowId < |borrows| && borrows[borrowId].status == Active && borrows[borrowId].user == userId
  }

  /** `returnBook` (controllers/borrow_controller.js:60-83); the answer carries the closed record. */
  method ReturnBook(db: Database, userId: UserId, borrowId: int, now: int)
    returns (r: Result<Borrow, ReturnError>)
    requires db.Valid()
    modifies db
    ensures db.Valid()
    ensures db.users == old(db.users) && db.shelf == old(db.shelf)
    ensures r.Ok? <==> IsOwnActiveLoan(old(db.borrows), borrowId, userId)
    ensures r.Err? ==> db.books == old(db.books) && db.borrows == old(db.borrows)
    ensures r.Ok? ==>
              var rec := old(db.borrows)[borrowId];
              && r.value == Close(rec, now)
              && db.borrows == old(db.borrows)[borrowId := Close(rec, now)]
              && db.books == Release(old(db.books), rec.book)
    ensures old(db.Consistent()) ==> db.Consistent()
  {
    if !IsOwnActiveLoan(db.borrows, borrowId, userId) {
      return Err(ActiveRecordNotFound);
    }
    ghost var consistent := db.Consistent();
    var rec := db.borrows[borrowId];
    // close and save the record first
    var closed := Close(rec, now);
    CloseWellFormed(rec, now);
    RecordKeepsStock(db.shelf, db.books, db.borrows, borrowId, closed);
    if rec.book in db.books {
      FlagKeepsStock(db.shelf, db.books, db.borrows[borrowId := closed], rec.book, true);
    }
    db.borrows := db.borrows[borrowId := closed];
    // then release the book, which does nothing if it has been deleted meanwhile
    db.books := Release(db.books, rec.book);
    if consistent {
      ReturnKeepsInvariant(old(db.books), old(db.borrows), borrowId, now);
    }
    r := Ok(closed);
  }
}
