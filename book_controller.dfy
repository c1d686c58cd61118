/**
 * The catalog handlers: the filtered, paginated listing and the three admin-only store
 * operations. The listing works on the catalog in natural order; the store operations
 * change the books collection and say what they do to the circulation invariant.
 */
module BookController {
  import opened Common
  import opened Text
  import opened JsValue
  import opened ObjectIds
  import opened Paging
  import opened BookModel
  import opened BorrowModel
  import opened Store

  // ----- getBooks -----

  /** The query string of `GET /books`; `page` and `limit` as numbers. */
  datatype BookQuery = BookQuery(
    title: Option<string>,
    author: Option<string>,
    category: Option<string>,
    isAvailable: Option<string>,
    page: Option<int>,
    limit: Option<int>)

  /** The Mongo filter `getBooks` builds: `None` where the query adds no constraint. */
  datatype BookFilter = BookFilter(
    title: Option<string>,
    author: Option<string>,
    category: Option<string>,
    isAvailable: Option<bool>)

  /** A query parameter counts only when it is a non-empty (truthy) string. */
  function Given(p: Option<string>): Option<string> {
    if p.Some? && p.value != "" then p else None
  }

  /** Lines 17-21 of controllers/book_controller.js: one constraint per truthy parameter. */
  function BuildFilter(q: BookQuery): BookFilter {
    BookFilter(
      Given(q.title),
      Given(q.author),
      Given(q.category),
      if Given(q.isAvailable).Some? then Some(q.isAvailable.value == "true") else None)
  }

  /** The filter's meaning: title and author by case-insensitive substring, category and flag by equality. */
  predicate Admits(f: BookFilter, b: Book) {
    && (f.title.None? || ContainsIgnoringCase(b.title, f.title.value))
    && (f.author.None? || ContainsIgnoringCase(b.author, f.author.value))
    && (f.category.None? || CategoryName(b.category) == f.category.value)
    && (f.isAvailable.None? || b.isAvailable == f.isAvailable.value)
  }

  /** The filter as a test on catalog entries. */
  function Admitter(f: BookFilter): BookEntry -> bool {
    (e: BookEntry) => Admits(f, e.book)
  }

  /** `Book.find(filter)` in natural order. */
  function Matching(catalog: seq<BookEntry>, f: BookFilter): seq<BookEntry> {
    Filter(catalog, Admitter(f))
  }

  /** The 200 answer of `getBooks` (its `success: true` is constant). */
  datatype BookPage = BookPage(currentPage: int, totalPages: nat, totalBooks: nat, books: seq<BookEntry>)

  /** `getBooks` (controllers/book_controller.js:5-41), without the display-only `populate` join. */
  function GetBooks(catalog: seq<BookEntry>, q: BookQuery): (p: BookPage)
    requires InRange(q.page, q.limit)
    ensures p.currentPage == PageOf(q.page)
    ensures p.totalBooks == |Matching(catalog, BuildFilter(q))|
    ensures p.totalPages * LimitOf(q.limit) >= p.totalBooks
    ensures p.totalPages == 0 || (p.totalPages - 1) * LimitOf(q.limit) < p.totalBooks
    ensures |p.books| <= LimitOf(q.limit)
    ensures |p.books| == if Offset(PageOf(q.page), LimitOf(q.limit)) >= p.totalBooks then 0
                         else Min(LimitOf(q.limit), p.totalBooks - Offset(PageOf(q.page), LimitOf(q.limit)))
    ensures forall k :: 0 <= k < |p.books| ==> p.books[k] in catalog && Admits(BuildFilter(q), p.books[k].book)
    ensures forall k :: 0 <= k < |p.books| ==>
              Offset(PageOf(q.page), LimitOf(q.limit)) + k < |Matching(catalog, BuildFilter(q))|
              && p.books[k] == Matching(catalog, BuildFilter(q))[Offset(PageOf(q.page), LimitOf(q.limit)) + k]
  {
    var all := Matching(catalog, BuildFilter(q));
    FilterWithin(catalog, Admitter(BuildFilter(q)));
    var books := Paginate(all, PageOf(q.page), LimitOf(q.limit));
    assert forall k :: 0 <= k < |books| ==> books[k] in all;
    BookPage(PageOf(q.page), TotalPages(|all|, LimitOf(q.limit)), |all|, books)
  }

  /** Each parameter constrains only its own field, and an absent or empty one constrains nothing. */
  lemma QueryMeaning(q: BookQuery, b: Book)
    ensures Admits(BuildFilter(q), b) <==>
      && (q.title.None? || q.title.value == "" || ContainsIgnoringCase(b.title, q.title.value))
      && (q.author.None? || q.author.value == "" || ContainsIgnoringCase(b.author, q.author.value))
      && (q.category.None? || q.category.value == "" || CategoryName(b.category) == q.category.value)
      && (q.isAvailable.None? || q.isAvailable.value == "" || b.isAvailable == (q.isAvailable.value == "true"))
  {
  }

  /** A query without filter parameters lists the whole catalog, `limit` books at a time. */
  lemma UnfilteredListing(catalog: seq<BookEntry>, page: int, limit: int)
    requires page >= 1 && limit >= 1
    ensures var p := GetBooks(catalog, BookQuery(None, None, None, None, Some(page), Some(limit)));
            p.totalBooks == |catalog| && p.books == Paginate(catalog, page, limit)
  {
    FilterAll(catalog, Admitter(BookFilter(None, None, None, None)));
  }

  /** Page two of twenty-five books, ten per page, is books 11 to 20 of three pages. */
  lemma SecondOfThreePages(catalog: seq<BookEntry>)
    requires |catalog| == 25
    ensures var p := GetBooks(catalog, BookQuery(None, None, None, None, Some(2), Some(10)));
            p.totalPages == 3 && p.totalBooks == 25 && p.books == catalog[10..20]
  {
    UnfilteredListing(catalog, 2, 10);
  }

  /** Every stored book that passes the filter is among the matches. */
  lemma StoredMatchesListed(db: Database, f: BookFilter, id: BookId)
    requires db.Valid() && id in db.books && Admits(f, db.books[id])
    ensures BookEntry(id, db.books[id]) in Matching(db.Catalog(), f)
  {
    var catalog := db.Catalog();
    var k :| 0 <= k < |catalog| && catalog[k].id == id;
    FilterKeeps(catalog, Admitter(f), k);
  }

  function EntryId(e: BookEntry): BookId { e.id }

  /** A stored book that passes the filter has its id among the ids of the matches. */
  lemma StoredIdListed(db: Database, f: BookFilter, id: BookId)
    requires db.Valid() && id in db.books && Admits(f, db.books[id])
    ensures id in KeptKeys(db.Catalog(), Admitter(f), EntryId, |db.Catalog()|)
  {
    var catalog := db.Catalog();
    var k :| 0 <= k < |catalog| && catalog[k].id == id;
    assert Admitter(f)(catalog[k]) && EntryId(catalog[k]) == id;
  }

  /** The ids of the matches are the ids of the stored books that pass the filter. */
  lemma StoredKeys(db: Database, f: BookFilter)
    requires db.Valid()
    ensures KeptKeys(db.Catalog(), Admitter(f), EntryId, |db.Catalog()|) == set id | id in db.books && Admits(f, db.books[id])
  {
    var catalog := db.Catalog();
    var listed := KeptKeys(catalog, Admitter(f), EntryId, |catalog|);
    forall id | id in db.books && Admits(f, db.books[id]) ensures id in listed {
      StoredIdListed(db, f, id);
    }
    forall id | id in listed ensures id in db.books && Admits(f, db.books[id]) {
      var k :| 0 <= k < |catalog| && Admitter(f)(catalog[k]) && EntryId(catalog[k]) == id;
    }
  }

  /** The number of matches is the number of stored books that pass the filter. */
  lemma StoredMatchCount(db: Database, f: BookFilter)
    requires db.Valid()
    ensures |Matching(db.Catalog(), f)| == |set id | id in db.books && Admits(f, db.books[id])|
  {
    CountKept(db.Catalog(), Admitter(f), EntryId);
    StoredKeys(db, f);
  }

  /**
   * `getBooks` over the stored books: every listed book is stored under its id and passes the filter,
   * every stored book that passes is among the matches, and `totalBooks` counts exactly those books.
   */
  lemma StoredListing(db: Database, q: BookQuery)
    requires db.Valid() && InRange(q.page, q.limit)
    ensures var p := GetBooks(db.Catalog(), q);
            forall k :: 0 <= k < |p.books| ==>
              p.books[k].id in db.books && p.books[k].book == db.books[p.books[k].id]
              && Admits(BuildFilter(q), p.books[k].book)
    ensures forall id :: id in db.books && Admits(BuildFilter(q), db.books[id]) ==>
              BookEntry(id, db.books[id]) in Matching(db.Catalog(), BuildFilter(q))
    ensures GetBooks(db.Catalog(), q).totalBooks == |set id | id in db.books && Admits(BuildFilter(q), db.books[id])|
  {
    forall id | id in db.books && Admits(BuildFilter(q), db.books[id])
      ensures BookEntry(id, db.books[id]) in Matching(db.Catalog(), BuildFilter(q))
    {
      StoredMatchesListed(db, BuildFilter(q), id);
    }
    StoredMatchCount(db, BuildFilter(q));
  }

  // ----- createBook -----

  /**
   * Failures of the store operations: the Joi check (400), a missing book (404), and three errors
   * Mongoose throws, which reach Express's default error handler (500): a CastError on an id that is
   * not an ObjectId, the `required` validator on a string that trims to nothing, and the unique ISBN index.
   */
  datatype CatalogError = InvalidBook | BookNotFound | MalformedId | RequiredFieldEmpty | DuplicateIsbn

  /** The status each failure is answered with. */
  function CatalogFailureStatus(e: CatalogError): (status: int)
    ensures status == 400 <==> e.InvalidBook?
    ensures status == 404 <==> e.BookNotFound?
    ensures status == 500 <==> e.MalformedId? || e.RequiredFieldEmpty? || e.DuplicateIsbn?
  {
    match e
    case InvalidBook => 400
    case BookNotFound => 404
    case _ => 500
  }

  /**
   * `createBook` (controllers/book_controller.js:44-59). `newId` is the ObjectId the driver generates,
   * so it has never been used; `requester` is the admin's id from the token.
   */
  method CreateBook(db: Database, requester: UserId, body: BookBody, newId: BookId)
    returns (r: Result<BookEntry, CatalogError>)
    requires db.Valid() && IsCanonicalId(newId) && db.IsFreshBookId(newId)
    modifies db
    ensures db.Valid()
    ensures db.users == old(db.users) && db.borrows == old(db.borrows)
    ensures !ValidateBook(body) ==> r == Err(InvalidBook)
    ensures ValidateBook(body) && !PassesRequired(NewBook(body, requester)) ==> r == Err(RequiredFieldEmpty)
    ensures ValidateBook(body) && PassesRequired(NewBook(body, requester))
            && IsbnTaken(old(db.books), body.isbn.s, newId)
            ==> r == Err(DuplicateIsbn)
    ensures r.Ok? <==>
              ValidateBook(body) && PassesRequired(NewBook(body, requester)) && !IsbnTaken(old(db.books), body.isbn.s, newId)
    ensures r.Err? ==> db.books == old(db.books) && db.shelf == old(db.shelf)
    ensures r.Ok? ==>
              && ValidateBook(body)
              && r.value == BookEntry(newId, NewBook(body, requester))
              && db.books == old(db.books)[newId := NewBook(body, requester)]
              && db.shelf == old(db.shelf) + [newId]
    ensures old(db.Consistent()) ==> db.Consistent()
  {
    if !ValidateBook(body) {
      return Err(InvalidBook);
    }
    var book := NewBook(body, requester);
    if !PassesRequired(book) {
      return Err(RequiredFieldEmpty);
    }
    if IsbnTaken(db.books, body.isbn.s, newId) {
      return Err(DuplicateIsbn);
    }
    ghost var consistent := db.Consistent();
    AddBookKeepsStock(db.shelf, db.books, db.borrows, newId, book);
    db.books := db.books[newId := book];
    db.shelf := db.shelf + [newId];
    if consistent {
      AddBookKeepsInvariant(old(db.books), db.borrows, newId, book);
    }
    r := Ok(BookEntry(newId, book));
  }

  // ----- updateBook -----

  /** The answer of `updateBook` on a given store: the first failing check, or the updated book. */
  function UpdateResult(books: map<BookId, Book>, id: string, body: BookBody): (r: Result<Book, CatalogError>)
    ensures CastObjectId(id).None? ==> r == Err(MalformedId)
    ensures CastObjectId(id).Some? && CastObjectId(id).value !in books ==> r == Err(BookNotFound)
    ensures CastObjectId(id).Some? && CastObjectId(id).value in books && !ValidateBook(body)
            ==> r == Err(InvalidBook)
    ensures CastObjectId(id).Some? && CastObjectId(id).value in books && ValidateBook(body)
            && IsbnTaken(books, body.isbn.s, CastObjectId(id).value)
            ==> r == Err(DuplicateIsbn)
    ensures r.Ok? <==>
              CastObjectId(id).Some? && CastObjectId(id).value in books && ValidateBook(body)
              && !IsbnTaken(books, body.isbn.s, CastObjectId(id).value)
    ensures r.Ok? ==>
              && CastObjectId(id).Some? && ValidateBook(body)
              && CastObjectId(id).value in books
              && r.value == ApplyUpdate(books[CastObjectId(id).value], body)
  {
    match CastObjectId(id)
    case None => Err(MalformedId)
    case Some(key) =>
      if key !in books then Err(BookNotFound)
      else if !ValidateBook(body) then Err(InvalidBook)
      else if IsbnTaken(books, body.isbn.s, key) then Err(DuplicateIsbn)
      else Ok(ApplyUpdate(books[key], body))
  }

  /**
   * `updateBook` (controllers/book_controller.js:62-87): answers `UpdateResult` and stores the updated
   * book when that succeeds. It may set `isAvailable` directly, and then the circulation invariant
   * survives exactly when the flag keeps its value.
   */
  method UpdateBook(db: Database, id: string, body: BookBody) returns (r: Result<Book, CatalogError>)
    requires db.Valid()
    modifies db
    ensures r == UpdateResult(old(db.books), id, body)
    ensures db.Valid()
    ensures db.users == old(db.users) && db.borrows == old(db.borrows) && db.shelf == old(db.shelf)
    ensures r.Err? ==> db.books == old(db.books)
    ensures r.Ok? ==> db.books == old(db.books)[CastObjectId(id).value := r.value]
    ensures old(db.Consistent()) && r.Err? ==> db.Consistent()
    ensures old(db.Consistent()) && r.Ok? ==>
              (db.Consistent() <==> r.value.isAvailable == old(db.books)[CastObjectId(id).value].isAvailable)
  {
    var cast := CastObjectId(id);
    if cast.None? {
      return Err(MalformedId);
    }
    var key := cast.value;
    if key !in db.books {
      // the handler answers 404 but does not return; what follows cannot change the store
      return Err(BookNotFound);
    }
    if !ValidateBook(body) {
      return Err(InvalidBook);
    }
    if IsbnTaken(db.books, body.isbn.s, key) {
      return Err(DuplicateIsbn);
    }
    var updated := ApplyUpdate(db.books[key], body);
    ghost var consistent := db.Consistent();
    PutBookKeepsStock(db.shelf, db.books, db.borrows, key, updated);
    db.books := db.books[key := updated];
    if consistent {
      OverwriteBookInvariant(old(db.books), db.borrows, key, updated);
    }
    r := Ok(updated);
  }

  // ----- deleteBook -----

  /** The position of `x` in `s`. */
  function IndexOf<T(==)>(s: seq<T>, x: T): (k: nat)
    requires x in s
    ensures k < |s| && s[k] == x
  {
    if s[0] == x then 0 else 1 + IndexOf(s[1..], x)
  }

  /** `deleteBook` (controllers/book_controller.js:90-97): removes exactly that book, lent or not. */
  method DeleteBook(db: Database, id: string) returns (r: Result<BookId, CatalogError>)
    requires db.Valid()
    modifies db
    ensures db.Valid()
    ensures db.users == old(db.users) && db.borrows == old(db.borrows)
    ensures CastObjectId(id).None? ==> r == Err(MalformedId)
    ensures CastObjectId(id).Some? && CastObjectId(id).value !in old(db.books) ==> r == Err(BookNotFound)
    ensures r.Ok? <==> CastObjectId(id).Some? && CastObjectId(id).value in old(db.books)
    ensures r.Err? ==> db.books == old(db.books) && db.shelf == old(db.shelf)
    ensures r.Ok? ==>
              && CastObjectId(id) == Some(r.value) && r.value in old(db.books)
              && db.books == old(db.books) - {r.value}
              && db.shelf == Filter(old(db.shelf), Other(r.value))
    ensures old(db.Consistent()) ==> db.Consistent()
  {
    var cast := CastObjectId(id);
    if cast.None? {
      return Err(MalformedId);
    }
    var key := cast.value;
    if key !in db.books {
      return Err(BookNotFound);
    }
    ghost var consistent := db.Consistent();
    var k := IndexOf(db.shelf, key);
    DeleteBookKeepsStock(db.shelf, db.books, db.borrows, k);
    ShelfWithout(db.shelf, k);
    db.shelf := db.shelf[..k] + db.shelf[k + 1..];
    db.books := db.books - {key};
    if consistent {
      RemoveBookKeepsInvariant(old(db.books), db.borrows, key);
    }
    r := Ok(key);
  }

  /** Every id but `id`: the deletion filter. */
  function Other(id: BookId): BookId -> bool {
    (x: BookId) => x != id
  }

  /** On a repetition-free shelf, cutting out position `k` is filtering out its id. */
  lemma ShelfWithout(shelf: seq<BookId>, k: nat)
    requires k < |shelf| && forall i, j :: 0 <= i < j < |shelf| ==> shelf[i] != shelf[j]
    ensures Filter(shelf, Other(shelf[k])) == shelf[..k] + shelf[k + 1..]
  {
    forall i | 0 <= i < |shelf| && i != k ensures Other(shelf[k])(shelf[i]) {
      if i < k {
        assert shelf[i] != shelf[k];
      } else {
        assert shelf[k] != shelf[i];
      }
    }
    FilterDropsOne(shelf, k, Other(shelf[k]));
  }
}
