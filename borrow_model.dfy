/**
 * The Borrow schema: a loan record with its defaults (borrowed now, due fourteen days
 * later, active, not yet returned), the status enum, and the `validateBorrow` check of
 * the borrow request body.
 */
module BorrowModel {
  import opened Common
  import opened Text
  import opened JsValue
  import opened ObjectIds

  datatype Status = Active | Returned | Overdue

  function StatusName(s: Status): string {
    match s
    case Active => "active"
    case Returned => "returned"
    case Overdue => "overdue"
  }

  /** The status a string names, if it is one of the three enum values. */
  function ParseStatus(s: string): (r: Option<Status>)
    ensures r.Some? ==> StatusName(r.value) == s
    ensures r.None? ==> forall st :: StatusName(st) != s
  {
    if s == "active" then Some(Active)
    else if s == "returned" then Some(Returned)
    else if s == "overdue" then Some(Overdue)
    else None
  }

  /** `14 * 24 * 60 * 60 * 1000`: the loan period in milliseconds. */
  const LoanPeriod: int := 14 * 24 * 60 * 60 * 1000

  /**
   * A loan record. Times are milliseconds since the epoch; `returnedAt` is absent until
   * the book comes back.
   */
  datatype Borrow = Borrow(
    user: string,
    book: string,
    borrowedAt: int,
    dueDate: int,
    returnedAt: Option<int>,
    status: Status)

  /**
   * The record `Borrow.create({ user, book })` stores when the clock reads `now`
   * (the two `Date.now()` readings of the schema defaults taken as one).
   */
  function NewBorrow(user: string, book: string, now: int): (r: Borrow)
    ensures r.user == user && r.book == book
    ensures r.status == Active && r.returnedAt == None
    ensures r.borrowedAt == now && r.dueDate - r.borrowedAt == 1_209_600_000
  {
    Borrow(user, book, now, now + LoanPeriod, None, Active)
  }

  /** What `returnBook` writes into a record before saving it (controllers/borrow_controller.js:71-73). */
  function Close(r: Borrow, now: int): (c: Borrow)
    ensures c.status == Returned && c.returnedAt == Some(now)
    ensures c.user == r.user && c.book == r.book && c.borrowedAt == r.borrowedAt && c.dueDate == r.dueDate
  {
    r.(returnedAt := Some(now), status := Returned)
  }

  /** The record invariant the ledger keeps: due fourteen days after borrowing; a return time exactly when returned. */
  predicate WellFormed(r: Borrow) {
    r.dueDate == r.borrowedAt + LoanPeriod && (r.returnedAt.Some? <==> r.status == Returned)
  }

  lemma NewBorrowWellFormed(user: string, book: string, now: int)
    ensures WellFormed(NewBorrow(user, book, now))
  {
  }

  /** Closing an active well-formed record keeps it well-formed and does not move its due date. */
  lemma CloseWellFormed(r: Borrow, now: int)
    requires WellFormed(r) && r.status == Active
    ensures WellFormed(Close(r, now)) && Close(r, now).dueDate == r.dueDate
  {
  }

  /** How Joi's `date()` reads the optional `returnedAt` key; the date-string grammar is not modelled. */
  datatype DateInput = NoDate | ADate(ms: int) | NotADate

  /** A borrow request body; `unknown` holds any keys outside the schema. */
  datatype BorrowBody = BorrowBody(book: Json, returnedAt: DateInput, unknown: set<string>)

  /** `validateBorrow(body)` reports no error: `book` is 24 hex digits, `returnedAt` (if any) a date, nothing else. */
  predicate ValidateBorrow(body: BorrowBody) {
    && body.book.Str? && IsObjectIdText(body.book.s)
    && !body.returnedAt.NotADate?
    && body.unknown == {}
  }

  /** The canonical id of the book a valid body asks for. */
  function RequestedBook(body: BorrowBody): (id: string)
    requires ValidateBorrow(body)
    ensures IsCanonicalId(id) && CastObjectId(body.book.s) == Some(id)
  {
    CastObjectId(body.book.s).value
  }
}
