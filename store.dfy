/**
 * The MongoDB collections the handlers share, as one object: users, books keyed by
 * canonical ObjectId together with their natural order, and the borrow ledger, whose
 * record ids are positions. The circulation invariant ties each book's `isAvailable`
 * flag to the ledger: a book is unavailable exactly when one active record holds it.
 */
module Store {
  import opened Common
  import opened ObjectIds
  import opened BookModel
  import opened BorrowModel

  type UserId = string
  type BookId = string

  /** The two user fields the circulation handlers read; the rest of the user model is not modelled. */
  datatype User = User(name: string, email: string)

  /** A listed document together with its id. */
  datatype BookEntry = BookEntry(id: BookId, book: Book)

  /** Record `r` is an active loan of book `id`. */
  predicate Holds(r: Borrow, id: BookId) {
    r.book == id && r.status == Active
  }

  function Ind(r: Borrow, id: BookId): nat {
    if Holds(r, id) then 1 else 0
  }

  /** The number of active records for book `id`. */
  function ActiveCount(borrows: seq<Borrow>, id: BookId): nat {
    if borrows == [] then 0
    else ActiveCount(borrows[..|borrows| - 1], id) + Ind(borrows[|borrows| - 1], id)
  }

  /**
   * The circulation invariant: a stored book is unavailable exactly when exactly one active
   * record holds it, and available when none does; and no id, stored or deleted, is held twice.
   */
  ghost predicate FlagsMatchLedger(books: map<BookId, Book>, borrows: seq<Borrow>) {
    && (forall id :: id in books ==> ActiveCount(borrows, id) == if books[id].isAvailable then 0 else 1)
    && (forall id :: ActiveCount(borrows, id) <= 1)
  }

  lemma ActiveCountAppend(borrows: seq<Borrow>, r: Borrow, id: BookId)
    ensures ActiveCount(borrows + [r], id) == ActiveCount(borrows, id) + Ind(r, id)
  {
    assert (borrows + [r])[..|borrows|] == borrows;
  }

  /** Replacing one record changes the count by that record's contribution only. */
  lemma {:induction false} ActiveCountUpdate(borrows: seq<Borrow>, i: nat, r: Borrow, id: BookId)
    requires i < |borrows|
    ensures ActiveCount(borrows[i := r], id) == ActiveCount(borrows, id) - Ind(borrows[i], id) + Ind(r, id)
  {
    var n := |borrows|;
    if i == n - 1 {
      assert borrows[i := r][..n - 1] == borrows[..n - 1];
    } else {
      ActiveCountUpdate(borrows[..n - 1], i, r, id);
      assert borrows[i := r][..n - 1] == borrows[..n - 1][i := r];
    }
  }

  /** The count is zero exactly when no record holds the book. */
  lemma {:induction false} ActiveCountZero(borrows: seq<Borrow>, id: BookId)
    ensures ActiveCount(borrows, id) == 0 <==> forall i :: 0 <= i < |borrows| ==> !Holds(borrows[i], id)
  {
    if borrows != [] {
      var init := borrows[..|borrows| - 1];
      ActiveCountZero(init, id);
      assert forall i :: 0 <= i < |init| ==> init[i] == borrows[i];
    }
  }

  /** Two different records holding the same book count twice. */
  lemma {:induction false} ActiveCountTwo(borrows: seq<Borrow>, i: nat, j: nat, id: BookId)
    requires i < j < |borrows| && Holds(borrows[i], id) && Holds(borrows[j], id)
    ensures ActiveCount(borrows, id) >= 2
  {
    var init := borrows[..|borrows| - 1];
    if j == |borrows| - 1 {
      assert init[i] == borrows[i];
      ActiveCountZero(init, id);
    } else {
      assert init[i] == borrows[i] && init[j] == borrows[j];
      ActiveCountTwo(init, i, j, id);
    }
  }

  /** Under the invariant, a book is unavailable exactly when some record holds it. */
  lemma UnavailableIffOnLoan(books: map<BookId, Book>, borrows: seq<Borrow>, id: BookId)
    requires FlagsMatchLedger(books, borrows) && id in books
    ensures !books[id].isAvailable <==> exists i :: 0 <= i < |borrows| && Holds(borrows[i], id)
  {
    ActiveCountZero(borrows, id);
  }

  /** Under the invariant, no book is lent twice at once. */
  lemma AtMostOneLoan(books: map<BookId, Book>, borrows: seq<Borrow>, i: nat, j: nat, id: BookId)
    requires FlagsMatchLedger(books, borrows)
    requires i < |borrows| && j < |borrows| && Holds(borrows[i], id) && Holds(borrows[j], id)
    ensures i == j
  {
    if i < j {
      ActiveCountTwo(borrows, i, j, id);
    } else if j < i {
      ActiveCountTwo(borrows, j, i, id);
    }
  }

  /** Lending: an available book becomes unavailable as an active record for it is appended. */
  lemma LendKeepsInvariant(books: map<BookId, Book>, borrows: seq<Borrow>, id: BookId, r: Borrow)
    requires FlagsMatchLedger(books, borrows)
    requires id in books && books[id].isAvailable && Holds(r, id)
    ensures FlagsMatchLedger(books[id := books[id].(isAvailable := false)], borrows + [r])
  {
    forall x ensures ActiveCount(borrows + [r], x) == ActiveCount(borrows, x) + Ind(r, x) {
      ActiveCountAppend(borrows, r, x);
    }
  }

  /**
   * A record written for an available book whose flag is then not cleared breaks the invariant,
   * whatever the ledger held before: the book is available and yet held.
   */
  lemma UnflippedLendBreaksInvariant(books: map<BookId, Book>, borrows: seq<Borrow>, id: BookId, r: Borrow)
    requires id in books && books[id].isAvailable && Holds(r, id)
    ensures !FlagsMatchLedger(books, borrows + [r])
  {
    ActiveCountAppend(borrows, r, id);
    assert ActiveCount(borrows + [r], id) >= 1;
  }

  /** `Book.findByIdAndUpdate(id, { isAvailable: true })`: sets the flag, or does nothing if the book is gone. */
  function Release(books: map<BookId, Book>, id: BookId): (after: map<BookId, Book>)
    ensures after.Keys == books.Keys
    ensures id in books ==> after[id] == books[id].(isAvailable := true)
    ensures forall x :: x in books && x != id ==> after[x] == books[x]
  {
    if id in books then books[id := books[id].(isAvailable := true)] else books
  }

  /** Releasing is idempotent. */
  lemma ReleaseIdempotent(books: map<BookId, Book>, id: BookId)
    ensures Release(Release(books, id), id) == Release(books, id)
  {
  }

  /** Returning: closing an active record and releasing its book keeps the invariant. */
  lemma ReturnKeepsInvariant(books: map<BookId, Book>, borrows: seq<Borrow>, i: nat, now: int)
    requires FlagsMatchLedger(books, borrows)
    requires i < |borrows| && borrows[i].status == Active
    ensures FlagsMatchLedger(Release(books, borrows[i].book), borrows[i := Close(borrows[i], now)])
  {
    var closed := Close(borrows[i], now);
    var ledger := borrows[i := closed];
    forall x ensures ActiveCount(ledger, x) == ActiveCount(borrows, x) - Ind(borrows[i], x) {
      ActiveCountUpdate(borrows, i, closed, x);
    }
    var id := borrows[i].book;
    ActiveCountZero(borrows, id);
    assert ActiveCount(borrows, id) == 1;
    var after := Release(books, id);
    forall x | x in after
      ensures ActiveCount(ledger, x) == if after[x].isAvailable then 0 else 1
    {
      if x != id {
        assert after[x] == books[x];
      }
    }
  }

  /** Adding an available book under an id no record mentions keeps the invariant. */
  lemma AddBookKeepsInvariant(books: map<BookId, Book>, borrows: seq<Borrow>, id: BookId, b: Book)
    requires FlagsMatchLedger(books, borrows)
    requires b.isAvailable && forall i :: 0 <= i < |borrows| ==> borrows[i].book != id
    ensures FlagsMatchLedger(books[id := b], borrows)
  {
    ActiveCountZero(borrows, id);
  }

  /** Deleting a book keeps the invariant, even while it is on loan. */
  lemma RemoveBookKeepsInvariant(books: map<BookId, Book>, borrows: seq<Borrow>, id: BookId)
    requires FlagsMatchLedger(books, borrows)
    ensures FlagsMatchLedger(books - {id}, borrows)
  {
  }

  /** Overwriting a stored book keeps the invariant exactly when it keeps that book's flag. */
  lemma OverwriteBookInvariant(books: map<BookId, Book>, borrows: seq<Borrow>, id: BookId, b: Book)
    requires FlagsMatchLedger(books, borrows) && id in books
    ensures FlagsMatchLedger(books[id := b], borrows) <==> b.isAvailable == books[id].isAvailable
  {
    if b.isAvailable != books[id].isAvailable {
      assert ActiveCount(borrows, id) != if b.isAvailable then 0 else 1;
      assert books[id := b][id] == b;
    }
  }

  /** The shelf lists every stored book exactly once. */
  ghost predicate ShelfListsBooks(shelf: seq<BookId>, books: map<BookId, Book>) {
    && (forall i, j :: 0 <= i < j < |shelf| ==> shelf[i] != shelf[j])
    && (forall i :: 0 <= i < |shelf| ==> shelf[i] in books)
    && (forall id :: id in books ==> id in shelf)
  }

  /** Deleting the book at shelf position `k` leaves a shelf that lists the remaining books. */
  lemma RemoveFromShelf(shelf: seq<BookId>, books: map<BookId, Book>, k: nat)
    requires ShelfListsBooks(shelf, books) && k < |shelf|
    ensures ShelfListsBooks(shelf[..k] + shelf[k + 1..], books - {shelf[k]})
  {
    var rest := shelf[..k] + shelf[k + 1..];
    var left := books - {shelf[k]};
    assert |rest| == |shelf| - 1;
    assert forall i :: 0 <= i < |rest| ==> rest[i] == shelf[if i < k then i else i + 1];
    forall i, j | 0 <= i < j < |rest| ensures rest[i] != rest[j] {
      var i', j' := if i < k then i else i + 1, if j < k then j else j + 1;
      assert rest[i] == shelf[i'] && rest[j] == shelf[j'] && i' < j';
    }
    forall i | 0 <= i < |rest| ensures rest[i] in left {
      var i' := if i < k then i else i + 1;
      assert rest[i] == shelf[i'] && i' != k;
    }
    forall id | id in left ensures id in rest {
      var i :| 0 <= i < |shelf| && shelf[i] == id;
      if i < k {
        assert rest[i] == id;
      } else {
        assert i != k;
        assert rest[i - 1] == shelf[i];
      }
    }
  }

  /** The unique index on ISBN. */
  ghost predicate UniqueIsbns(books: map<BookId, Book>) {
    forall a, b :: a in books && b in books && a != b ==> books[a].isbn != books[b].isbn
  }

  /** Some stored book other than `except` has ISBN `isbn`. */
  predicate IsbnTaken(books: map<BookId, Book>, isbn: string, except: BookId) {
    exists id :: id in books && id != except && books[id].isbn == isbn
  }

  /**
   * The structural invariant of the collections: the natural order lists the stored books,
   * book ids are canonical ObjectIds, ISBNs are unique, and every record is well-formed.
   */
  ghost predicate Stocked(shelf: seq<BookId>, books: map<BookId, Book>, borrows: seq<Borrow>) {
    && ShelfListsBooks(shelf, books)
    && (forall id :: id in books ==> IsCanonicalId(id))
    && UniqueIsbns(books)
    && (forall i :: 0 <= i < |borrows| ==> WellFormed(borrows[i]))
  }

  /** Overwriting a stored book with one whose ISBN no other book has keeps the structure. */
  lemma PutBookKeepsStock(shelf: seq<BookId>, books: map<BookId, Book>, borrows: seq<Borrow>, id: BookId, b: Book)
    requires Stocked(shelf, books, borrows) && id in books && !IsbnTaken(books, b.isbn, id)
    ensures Stocked(shelf, books[id := b], borrows)
  {
    var after := books[id := b];
    assert after.Keys == books.Keys;
    forall x, y | x in after && y in after && x != y ensures after[x].isbn != after[y].isbn {
      if x == id {
        assert books[y].isbn != b.isbn;
      } else if y == id {
        assert books[x].isbn != b.isbn;
      }
    }
  }

  /** Storing a new book under a fresh canonical id, at the end of the natural order, keeps the structure. */
  lemma AddBookKeepsStock(shelf: seq<BookId>, books: map<BookId, Book>, borrows: seq<Borrow>, id: BookId, b: Book)
    requires Stocked(shelf, books, borrows) && id !in books && IsCanonicalId(id) && !IsbnTaken(books, b.isbn, id)
    ensures Stocked(shelf + [id], books[id := b], borrows)
  {
    var after := books[id := b];
    var order := shelf + [id];
    forall i, j | 0 <= i < j < |order| ensures order[i] != order[j] {
      if j == |shelf| {
        assert order[i] == shelf[i] && shelf[i] in books;
      } else {
        assert order[i] == shelf[i] && order[j] == shelf[j];
      }
    }
    forall x | x in after ensures x in order {
      if x != id {
        var i :| 0 <= i < |shelf| && shelf[i] == x;
        assert order[i] == x;
      } else {
        assert order[|shelf|] == x;
      }
    }
    forall x, y | x in after && y in after && x != y ensures after[x].isbn != after[y].isbn {
      if x == id {
        assert books[y].isbn != b.isbn;
      } else if y == id {
        assert books[x].isbn != b.isbn;
      }
    }
  }

  /** Changing only a book's flag keeps the structure. */
  lemma FlagKeepsStock(shelf: seq<BookId>, books: map<BookId, Book>, borrows: seq<Borrow>, id: BookId, flag: bool)
    requires Stocked(shelf, books, borrows) && id in books
    ensures Stocked(shelf, books[id := books[id].(isAvailable := flag)], borrows)
  {
    var b := books[id].(isAvailable := flag);
    assert !IsbnTaken(books, b.isbn, id);
    PutBookKeepsStock(shelf, books, borrows, id, b);
  }

  /** Appending a well-formed record, or replacing one with a well-formed record, keeps the structure. */
  lemma RecordKeepsStock(shelf: seq<BookId>, books: map<BookId, Book>, borrows: seq<Borrow>, i: nat, r: Borrow)
    requires Stocked(shelf, books, borrows) && i <= |borrows| && WellFormed(r)
    ensures Stocked(shelf, books, if i == |borrows| then borrows + [r] else borrows[i := r])
  {
  }

  /** Deleting the book at shelf position `k` keeps the structure. */
  lemma DeleteBookKeepsStock(shelf: seq<BookId>, books: map<BookId, Book>, borrows: seq<Borrow>, k: nat)
    requires Stocked(shelf, books, borrows) && k < |shelf|
    ensures Stocked(shelf[..k] + shelf[k + 1..], books - {shelf[k]}, borrows)
  {
    RemoveFromShelf(shelf, books, k);
  }

  class Database {
    var users: map<UserId, User>
    var books: map<BookId, Book>
    /** The books collection's natural order, insertion order with deletions removed. */
    var shelf: seq<BookId>
    /** The borrows collection; a record's id is its position. */
    var borrows: seq<Borrow>

    ghost predicate Valid()
      reads this
    {
      Stocked(shelf, books, borrows)
    }

    /** The circulation invariant on the current contents. */
    ghost predicate Consistent()
      reads this
    {
      FlagsMatchLedger(books, borrows)
    }

    /** `id` has never named a book: no stored book has it and no record mentions it. */
    predicate IsFreshBookId(id: BookId)
      reads this
    {
      id !in books && forall i :: 0 <= i < |borrows| ==> borrows[i].book != id
    }

    /** An empty catalog and ledger over the given users (who are registered elsewhere). */
    constructor (users: map<UserId, User>)
      ensures Valid() && Consistent()
      ensures this.users == users && books == map[] && shelf == [] && borrows == []
    {
      this.users := users;
      books := map[];
      shelf := [];
      borrows := [];
    }

    /**
     * The books collection as `find` walks it, in natural order: every stored book exactly once,
     * each under its own id.
     */
    function Catalog(): (entries: seq<BookEntry>)
      reads this
      requires Valid()
      ensures |entries| == |shelf|
      ensures forall k :: 0 <= k < |entries| ==> entries[k].id == shelf[k]
      ensures forall k :: 0 <= k < |entries| ==> entries[k].id in books && entries[k].book == books[entries[k].id]
      ensures forall i, j :: 0 <= i < j < |entries| ==> entries[i].id != entries[j].id
      ensures forall id :: id in books ==> exists k :: 0 <= k < |entries| && entries[k].id == id
    {
      var entries := seq(|shelf|, k requires 0 <= k < |shelf| reads this requires Valid() => BookEntry(shelf[k], books[shelf[k]]));
      assert forall k :: 0 <= k < |shelf| ==> entries[k].id == shelf[k];
      assert forall id :: id in books ==> exists k :: 0 <= k < |entries| && entries[k].id == id by {
        forall id | id in books ensures exists k :: 0 <= k < |entries| && entries[k].id == id {
          var k :| 0 <= k < |shelf| && shelf[k] == id;
          assert entries[k].id == id;
        }
      }
      entries
    }
  }
}
