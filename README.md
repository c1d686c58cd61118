# smart-library circulation, modelled in Dafny

This project models the circulation core of the smart-library Express/MongoDB service and proves properties of it.

- **Borrowing and returning.** A reader borrows a book only if it is available. The borrow appends an active loan record and marks the book unavailable. Returning closes the record and marks the book available again.
- **Listings.** Both listings are paginated: the borrow ledger, filtered by status, and the book catalog, filtered by title, author, category and availability.
- **Catalog operations.** The admin-only create, update and delete handlers.
- **Schemas.** The Book and Borrow schemas: defaults, enums, the `trim` setter, and the Joi validators of the request bodies.
- **Access middleware.** `verifyToken` reads the `Bearer` token. `verifyTokenAndAuthorization` lets through the owner of a route id or an admin. `isAdmin` lets through admins only.

## How the model is built

The MongoDB collections are the fields of one `Store.Database` object:
- users;
- books, keyed by canonical ObjectId;
- the books' natural order (`shelf`);
- the borrow ledger, where a record's id is its position.

The handlers are methods that change that object. Their `ensures` clauses state:
- the order in which the handler makes its checks;
- the error each failed check gives;
- the whole new state on success;
- that nothing else changes.

The store is well formed (`Store.Stocked`): the natural order lists every stored book once, ids are canonical, ISBNs are unique and every record is well formed; every handler keeps that.

The circulation invariant is `Store.FlagsMatchLedger`: every stored book is unavailable exactly when exactly one active record holds it, and no book is held twice. The lemmas of `Store` prove:
- returning, creating and deleting keep the invariant;
- borrowing keeps it unless `book.save()` fails after the record is written, and that failure breaks it;
- `updateBook` keeps it exactly when the update leaves `isAvailable` alone.

Two scenarios use these facts:
- `Scenario.DoubleLend`: an admin re-shelves a lent book, and the same book is then lent twice.
- `Scenario.BlankTitleLend`: an admin sets a title to two spaces, which Joi accepts and `trim` empties. Every later borrow then writes an active record and is answered 500, and the book stays available.

The request-handling logic is pure and is written as functions with lemmas:
- the two listings;
- the validators;
- the `Bearer` header parsing;
- the access decisions.

`Request` is a class because `verifyToken` writes `req.user`.

The model keeps these details of the code:
- **Order of the two writes.** `borrowBook` creates the record first (controllers/borrow_controller.js:38-41) and flips the book afterwards (lines 43-44).
- **No rollback.** The code has no compensating step if the second write fails. `book.save()` runs Mongoose's validators on the whole document, so a stored title or author that is empty makes it fail every time. The record stays active and the book stays available.
- **Status code for an unavailable book.** It is answered with 404 and the misspelt key `mesage` (line 35).
- **Return lookup.** `returnBook` finds the record by id, `active` status and owner together (lines 62-66). A wrong id, someone else's loan and a closed loan all give the same 404.
- **The borrow listing.** `getAllBorrows` answers with the page only, with no total count and no page count (line 16).
- **No overdue transition.** Nothing in the code moves a record to `overdue`.

Clocks, the token verifier and generated ids are parameters:
- `now: int` in milliseconds;
- `verify: string -> Option<Payload>` for `jwt.verify` with the server secret;
- `newId` for the ObjectId the driver generates.

## Model

| member | source | states |
|---|---|---|
| Text.IsJsSpace | models/Book.js:10 | the characters `trim` removes: tab, line feed, vertical tab, form feed, carriage return, space, no-break space, the byte order mark, the line and paragraph separators and the Zs space separators |
| Text.Trim | models/Book.js:7-22 | the schema's `trim: true`: the result is the part of the input between its leading and trailing JavaScript white space, with no white space left at either end |
| Text.TrimIdempotent | models/Book.js:7-22 | trimming a trimmed string changes nothing, so re-saving a stored title, author or ISBN keeps it |
| Text.TrimDigits | models/Book.js:49-52 | an ISBN that passed the digits-only pattern is stored exactly as sent |
| Text.Lower | controllers/book_controller.js:18-19 | the case folding of the `$options: "i"` search leaves no capital letter, turns each capital into its small letter, keeps every other character and the length |
| Text.LowerIdempotent | controllers/book_controller.js:18-19 | folding an already folded string changes nothing |
| Text.CaseBlind | controllers/book_controller.js:18-19 | a case-insensitive match does not change when the search text or the title is lower-cased first |
| Text.Utf16Length | models/Book.js:47-48 | JavaScript's `length` counts one unit per character of the Basic Multilingual Plane and two per other character, so it lies between the character count and twice it, and equals the character count on BMP text |
| Text.DigitsUtf16Length | models/Book.js:49-52 | a digit string's UTF-16 length is its character count |
| Text.Contains | controllers/book_controller.js:18-19 | the `$regex` test on a query free of metacharacters: the needle occurs somewhere in the text (a position, as `ContainsAt` and `ContainsPosition` show in both directions) |
| Text.ContainsAt | controllers/book_controller.js:18-19 | an occurrence of the search text at any position makes the substring test true |
| Text.ContainsPosition | controllers/book_controller.js:18-19 | conversely, a true substring test yields a position where the text occurs |
| Text.ContainsIgnoringCase | controllers/book_controller.js:18-19 | `$options: "i"`: the needle occurs in the text once both are folded to lower case (`CaseBlind`) |
| Text.TakeUntil | middlewares/verification.js:9 | the text up to the first space is a space-free prefix, followed by a space or by the end of the string |
| Text.Split | middlewares/verification.js:9 | `split(" ")` gives at least one field, and no field contains a space |
| Text.JoinSplit | middlewares/verification.js:9 | splitting loses nothing: joining the fields with the separator gives the string back |
| Text.SplitJoin | middlewares/verification.js:9 | joining space-free fields and splitting again gives the same fields |
| Text.SplitAfter | middlewares/verification.js:9 | a space-free prefix followed by a space becomes the first field, and the rest splits independently |
| Text.SplitWhole | middlewares/verification.js:9 | a string without spaces splits into itself alone |
| Text.SplitFirst | middlewares/verification.js:9 | the first field is the text before the first space |
| JsValue.Truthy | controllers/borrow_controller.js:8 | the truthiness behind `status ? …` and the `if (title)` … `if (isAvailable)` tests of controllers/book_controller.js:18-21: `undefined`, `null`, `false`, `0` and `""` are falsy, everything else truthy |
| JsValue.Decimal | middlewares/verification.js:22 | what `toString()` prints for a non-negative integer: at least one character, only decimal digits, and no leading zero for a positive number |
| JsValue.DecimalValue | middlewares/verification.js:22 | reading the printed numeral back gives the number, so distinct numbers print differently |
| JsValue.ToStr | middlewares/verification.js:22 | `toString()` throws exactly on `undefined` and `null` and returns a string unchanged |
| ObjectIds.IsCanonicalId | models/Borrow.js:12-16 | the text of an ObjectId reference as Mongoose prints it: exactly 24 characters, each a digit or a lower-case `a`-`f` |
| ObjectIds.CastObjectId | controllers/book_controller.js:63 | `findById` accepts exactly the 24-hex strings, as the lower-case id with the same letters; anything else is a CastError |
| ObjectIds.CastCanonical | controllers/book_controller.js:63 | a canonical id casts to itself |
| Paging.Filter | controllers/borrow_controller.js:10 | `find(filter)` returns no more documents than it has, each matching |
| Paging.FilterWithin | controllers/borrow_controller.js:10 | every document `find` returns is one of the collection's |
| Paging.FilterKeeps | controllers/borrow_controller.js:10 | no matching document is left out |
| Paging.FilterAppend | controllers/borrow_controller.js:10 | filtering distributes over concatenation, so the natural order is kept |
| Paging.FilterAll | controllers/book_controller.js:17 | the empty filter `{}` returns the whole collection |
| Paging.FilterSkip | controllers/book_controller.js:95 | dropping one rejected document between two runs of kept ones leaves the two runs joined |
| Paging.FilterDropsOne | controllers/book_controller.js:95 | a filter that rejects only position `k` cuts out exactly that position |
| Paging.FilterKeepsOrder | controllers/borrow_controller.js:10 | the results come out in the same increasing id order as the collection |
| Paging.KeptKeysStep | controllers/book_controller.js:25 | one more document adds its id to the admitted ids when the filter admits it, and that id is new when ids are distinct |
| Paging.KeptKeysGrow | controllers/book_controller.js:25 | over distinct ids, the number of admitted ids grows by one exactly when the next document is admitted |
| Paging.FilterPrefixStep | controllers/book_controller.js:25 | one more document in the collection adds one to the filtered count exactly when the filter admits it |
| Paging.CountKeptUpTo | controllers/book_controller.js:25 | among the first `n` documents with distinct ids, the filter keeps as many as there are admitted ids |
| Paging.CountKept | controllers/book_controller.js:25 | `countDocuments(filter)` over documents with distinct ids is the number of admitted ids |
| Paging.Paginate | controllers/book_controller.js:24-30 | `skip((page-1)*limit).limit(limit)` returns at most `limit` documents, exactly the ones starting at the offset, and its exact length |
| Paging.TotalPages | controllers/book_controller.js:37 | `Math.ceil(total / limit)` is the fewest pages of `limit` that hold `total` |
| Paging.PagePosition | controllers/book_controller.js:24-30 | document `i` appears on page `i / limit + 1` at position `i % limit` |
| Paging.NonEmptyPages | controllers/book_controller.js:24-37 | a page is non-empty exactly when its number is at most `totalPages` |
| BookModel.ParseCategory | models/Book.js:23-27 | a string names a category exactly when it is one of the five enum names, and parsing it recovers that category |
| BookModel.ParseCategoryName | models/Book.js:23-27 | naming a category and parsing the name back is the identity |
| BookModel.RequestedCategory | models/Book.js:23-27 | an absent category is stored as the default `Fiction`; a given one is stored as named |
| BookModel.IsIsbn | models/Book.js:49-52 | Joi's ISBN rule: a string of exactly 13 characters, all decimal digits |
| BookModel.ValidateBook | models/Book.js:45-64 | Joi's book schema: title of 2-100 and author of 2-50 UTF-16 units, a 13-digit ISBN, an optional category from the enum, an optional non-empty cover URI, an optional boolean `isAvailable`, and no other key |
| BookModel.IsbnLength | models/Book.js:49-52 | the ISBN check with Joi's UTF-16 `length(13)` is the check on 13 characters |
| BookModel.AstralTitleLength | models/Book.js:47 | one character outside the Basic Multilingual Plane counts as two units and so meets `min(2)` |
| BookModel.ValidBookFields | models/Book.js:45-64 | a valid body has a title of 2-100 UTF-16 units (1-100 characters) and an author of 2-50 (1-50 characters), a 13-digit ISBN, one of the five categories or none, and a boolean or no `isAvailable` |
| BookModel.NewBook | controllers/book_controller.js:50-56 | `Book.create` stores the trimmed title and author, the ISBN as sent, the requested or default category and the admin as `addedBy`; the book starts available with no cover |
| BookModel.ApplyUpdate | controllers/book_controller.js:72-85 | the `$set` trims the strings, changes only fields the body gives, and never changes `addedBy` |
| BookModel.PassesRequired | models/Book.js:7-22 | Mongoose's `required` on the trimmed title, author and ISBN: each must be non-empty |
| BorrowModel.ParseStatus | models/Borrow.js:28-32 | a string is a status exactly when it is one of `active`, `returned` and `overdue` |
| BorrowModel.NewBorrow | models/Borrow.js:17-32 | a new record is active, not returned, borrowed now, and due exactly 14 days (1 209 600 000 ms) later |
| BorrowModel.Close | controllers/borrow_controller.js:71-73 | closing sets `returned` and the return time and keeps owner, book, borrow time and due date |
| BorrowModel.WellFormed | models/Borrow.js:17-32 | the record shape the schema and its handlers keep: due exactly fourteen days after `borrowedAt`, and a `returnedAt` exactly when the status is `returned` |
| BorrowModel.NewBorrowWellFormed | models/Borrow.js:24-27 | every created record satisfies the due-date rule and has a return time only once returned |
| BorrowModel.CloseWellFormed | controllers/borrow_controller.js:70-73 | closing an active record keeps it well-formed and does not move its due date |
| BorrowModel.ValidateBorrow | models/Borrow.js:38-44 | Joi's borrow schema: `book` a string of 24 hex digits, `returnedAt` absent or a date, and no other key |
| BorrowModel.RequestedBook | models/Borrow.js:40 | a valid borrow body names a canonical book id, which `findById` casts it to |
| Store.ActiveCount | models/Borrow.js:12-32 | the number of `active` records that reference a book, counted along the ledger |
| Store.FlagsMatchLedger | controllers/borrow_controller.js:34-44 | the circulation invariant the lending and returning code keeps: a stored book is unavailable exactly when one active record holds it, available when none does, and no book is held twice |
| Store.ActiveCountAppend | controllers/borrow_controller.js:38-41 | appending a record adds its own contribution to a book's active count |
| Store.ActiveCountUpdate | controllers/borrow_controller.js:71-73 | replacing a record changes the count by that record's contribution only |
| Store.ActiveCountZero | controllers/borrow_controller.js:62-66 | a book's active count is zero exactly when no record holds it |
| Store.ActiveCountTwo | controllers/borrow_controller.js:38-44 | two records holding one book make its count at least two |
| Store.UnavailableIffOnLoan | controllers/borrow_controller.js:34-44 | under the invariant, a book is unavailable exactly when some active record holds it |
| Store.AtMostOneLoan | controllers/borrow_controller.js:34-44 | under the invariant, two active records for the same book are the same record |
| Store.LendKeepsInvariant | controllers/borrow_controller.js:38-44 | lending an available book keeps the invariant |
| Store.UnflippedLendBreaksInvariant | controllers/borrow_controller.js:38-44 | an active record written for an available book whose flag is then not cleared breaks the invariant, whatever the ledger held before |
| Store.Release | controllers/borrow_controller.js:76 | `findByIdAndUpdate(book, { isAvailable: true })` sets that one flag, keeps every other book, and does nothing when the book is gone |
| Store.ReleaseIdempotent | controllers/borrow_controller.js:76 | releasing twice is releasing once |
| Store.ReturnKeepsInvariant | controllers/borrow_controller.js:70-76 | closing an active record and releasing its book keeps the invariant |
| Store.AddBookKeepsInvariant | controllers/book_controller.js:50-56 | adding an available book under an unused id keeps the invariant |
| Store.RemoveBookKeepsInvariant | controllers/book_controller.js:95 | deleting a book keeps the invariant, even while the book is on loan |
| Store.OverwriteBookInvariant | controllers/book_controller.js:72-85 | overwriting a stored book keeps the invariant exactly when it keeps that book's flag |
| Store.RemoveFromShelf | controllers/book_controller.js:95 | deleting a book leaves a natural order that lists each remaining book exactly once |
| Store.IsbnTaken | models/Book.js:20 | the unique index on ISBN refuses a write: some stored book other than the one written already has that ISBN |
| Store.Stocked | models/Book.js:5-42 | the structure the collections keep: every stored book is listed once in natural order, book ids are canonical ObjectIds, ISBNs are unique, and every borrow record is well formed |
| Store.PutBookKeepsStock | controllers/book_controller.js:72-85 | overwriting a stored book with one whose ISBN no other book has keeps the store well formed: natural order, ids, unique ISBNs, records |
| Store.AddBookKeepsStock | controllers/book_controller.js:50-56 | adding a book under a fresh canonical id, with an ISBN no book has, at the end of the natural order keeps the store well formed |
| Store.FlagKeepsStock | controllers/borrow_controller.js:43-44 | setting one stored book's `isAvailable` keeps the store well formed |
| Store.RecordKeepsStock | controllers/borrow_controller.js:38-41 | appending or replacing one well-formed borrow record keeps the store well formed |
| Store.DeleteBookKeepsStock | controllers/book_controller.js:95 | deleting the book at one position of the natural order keeps the store well formed |
| Store.Database.Catalog | controllers/book_controller.js:28 | `Book.find` walks every stored book exactly once, under its own id, and nothing else |
| BorrowController.Ledger | controllers/borrow_controller.js:10 | the ledger lists every record once, with its id |
| BorrowController.GetAllBorrows | controllers/borrow_controller.js:6-17 | the listing holds at most `limit` records, each a stored record with the requested status, exactly the matching records from offset `(page-1)*limit` on, `limit` of them when there are enough and all the rest otherwise; page 1 and limit 10 when absent |
| BorrowController.Selects | controllers/borrow_controller.js:8 | a truthy status selects the records whose status has that name; an absent or empty one selects every record |
| BorrowController.Selected | controllers/borrow_controller.js:8-10 | `Borrow.find(filter)`: the ledger entries the status filter selects, in natural order (`SelectedIsExact`) |
| BorrowController.SelectedIsExact | controllers/borrow_controller.js:8-10 | the status filter selects every record with that status name and nothing else, in increasing id order; an absent or empty status selects everything |
| BorrowController.EveryMatchIsListed | controllers/borrow_controller.js:6-17 | every matching record appears on some page, for every page size |
| BorrowController.DefaultListing | controllers/borrow_controller.js:7-12 | with no query the answer is the first ten records |
| BorrowController.BorrowFailureReply | controllers/borrow_controller.js:20-44 | a Joi failure is answered 400 with Joi's message, the three failed lookups 404, and the ValidationError thrown by `book.save()` 500; only the "not available" answer uses the key `mesage` |
| BorrowController.BorrowRepliesDiffer | controllers/borrow_controller.js:20-36 | different failures of `borrowBook` get different answers |
| BorrowController.BorrowCheck | controllers/borrow_controller.js:20-36 | checks the body (400), the user (404), the book's existence (404) and its flag (404) in that order and reports the first that fails; succeeds exactly when all pass, with the requested book |
| BorrowController.RecordLoan | controllers/borrow_controller.js:38-41 | `Borrow.create` appends one active record for that user and book and changes nothing else; the store stays well formed |
| BorrowController.Lend | controllers/borrow_controller.js:38-57 | for a known user and an available stored book whose title, author and ISBN are non-empty, so that `book.save()` passes `required`: appends one active record for them, marks only that book unavailable, answers with the record's id and due date, the user's name and email and the book's title; the store stays well formed and the invariant is kept |
| BorrowController.BorrowBook | controllers/borrow_controller.js:19-58 | when `BorrowCheck` fails: its error, nothing changed. Otherwise the record is written; if the stored title, author or ISBN is empty, `book.save()` fails: `BookNotSaved`, the flag still set and the invariant broken. Success exactly when neither happens: one active record appended, only that book marked unavailable, the receipt with the record's id and due date, the user's name and email and the book's title, and the invariant kept |
| BorrowController.ReturnFailureReply | controllers/borrow_controller.js:67-68 | every failed return is answered 404 under the key `message` |
| BorrowController.IsOwnActiveLoan | controllers/borrow_controller.js:62-66 | the `findOne` filter: the record with that id exists, is `active` and belongs to the requesting user |
| BorrowController.ReturnBook | controllers/borrow_controller.js:60-83 | succeeds exactly when the id names an active record of the requester; otherwise 404 with nothing changed; on success closes that record at `now`, releases its book, answers with the closed record, and keeps the invariant |
| BookController.BuildFilter | controllers/book_controller.js:17-21 | one constraint per truthy query parameter: title and author as case-insensitive searches, category by name, `isAvailable` as the comparison with `"true"` |
| BookController.Admits | controllers/book_controller.js:17-21 | what a book must satisfy: title and author contain the query ignoring case, category and flag equal the query, each only when that parameter is given |
| BookController.Matching | controllers/book_controller.js:25-28 | `Book.find(filter)`: the catalog entries the filter admits, in natural order (`StoredListing`) |
| BookController.GetBooks | controllers/book_controller.js:5-41 | `totalBooks` is the number of matching books; `totalPages` is its ceiling over `limit`; the page holds the matching books from the offset on, `limit` of them when there are enough and all the rest otherwise |
| BookController.StoredMatchesListed | controllers/book_controller.js:28 | every stored book that passes the filter is among the matches |
| BookController.StoredIdListed | controllers/book_controller.js:28 | a stored book that passes the filter has its id among the matches' ids |
| BookController.StoredKeys | controllers/book_controller.js:25-28 | the ids of the matches are exactly the ids of the stored books that pass the filter |
| BookController.StoredMatchCount | controllers/book_controller.js:25 | `countDocuments(filter)` is the number of stored books that pass the filter |
| BookController.StoredListing | controllers/book_controller.js:5-41 | over the store: every listed book is the stored book under its id and passes the filter, every stored book that passes is matched, and `totalBooks` counts exactly the stored books that pass |
| BookController.QueryMeaning | controllers/book_controller.js:16-21 | each query parameter constrains only its own field, and an absent or empty one constrains nothing; title and author match case-insensitively as substrings; `isAvailable` matches the string `"true"` |
| BookController.UnfilteredListing | controllers/book_controller.js:23-31 | a query without filters pages through the whole catalog |
| BookController.SecondOfThreePages | controllers/book_controller.js:24-37 | page 2 of 25 books, 10 per page, is books 11 to 20, of 3 pages |
| BookController.CatalogFailureStatus | controllers/book_controller.js:46-48 | a Joi failure is answered 400, a missing book 404, and the errors Mongoose throws (CastError, `required`, the unique ISBN index) 500 |
| BookController.CreateBook | controllers/book_controller.js:44-59 | Joi failure (400), a title, author or ISBN that trims to nothing, and a duplicate ISBN (500) change nothing; succeeds exactly when none occurs; on success stores `NewBook` under the new id at the end of the natural order and keeps the invariant |
| BookController.UpdateResult | controllers/book_controller.js:62-85 | a malformed id (500), a missing book (404), Joi failure (400) and an ISBN another book has are reported in that order; success exactly when none occurs, with the book `ApplyUpdate` makes of the stored one |
| BookController.UpdateBook | controllers/book_controller.js:62-87 | answers `UpdateResult` on the store as it was; on failure nothing changes; on success only that book is replaced by the answer; the store stays well formed, and the invariant survives exactly when the flag is unchanged |
| BookController.DeleteBook | controllers/book_controller.js:90-97 | a malformed id (500) or missing book (404) changes nothing; succeeds exactly when the id names a stored book; removes that book from the store and from the natural order, loans included, and keeps the invariant |
| BookController.ShelfWithout | controllers/book_controller.js:95 | on a repetition-free natural order, removing one position is filtering out its id |
| Verification.HasBearer | middlewares/verification.js:5 | `authHeader?.startsWith("Bearer ")`: a header is present and starts with the prefix |
| Verification.TokenOf | middlewares/verification.js:9 | `split(" ")[1]` of a `Bearer ` header is the text after the prefix up to the next space |
| Verification.BearerToken | middlewares/verification.js:9 | a space-free token is read back whole, with or without text after a following space |
| Verification.Authenticate | middlewares/verification.js:3-17 | passes exactly when the header starts with `Bearer ` and the token verifies, yielding the decoded payload; otherwise 401 "No token provided" or 401 "Invalid or expired token" |
| Verification.OwnerOrAdmin | middlewares/verification.js:21-24 | throws exactly when `userId` or the route id is missing; otherwise passes exactly when the ids are equal as strings or `isAdmin` is truthy |
| Verification.Authorize | middlewares/verification.js:19-30 | reaches the ownership check only after `verifyToken` passed; a check that throws is answered by the `catch` with 401; passes exactly on owner or admin; otherwise 403 "Unauthorized access" |
| Verification.AdminOnly | middlewares/verification.js:33-36 | passes exactly when `req.user?.isAdmin` is truthy; otherwise 403 "Admin access required" |
| Verification.OwnerPasses | middlewares/verification.js:19-30 | a valid token for user `id` reaches the `:id` route of that user |
| Verification.AdminPassesEveryRoute | middlewares/verification.js:21-25 | an admin whose token names some user passes every `:id` route |
| Verification.StrangerRefused | middlewares/verification.js:21-28 | a non-admin whose id differs from the route's gets 403, not 401 |
| Verification.NumericOwnerPasses | middlewares/verification.js:22 | ids are compared as text, so a numeric `userId` claim below 2^53 matches its decimal numeral |
| Verification.MissingUserIdIsBadToken | middlewares/verification.js:10-24 | a token without a `userId` claim gets the invalid-token 401, even for an admin, because the check runs inside `verifyToken`'s `try` |
| Verification.AdminChain | middlewares/verification.js:33-36 | `[verifyToken, isAdmin]` in sequence passes exactly when the header carries a token that verifies to a payload with a truthy `isAdmin` |
| Verification.Request.VerifyToken | middlewares/verification.js:3-17 | calls `next` exactly when `Authenticate` passes and only then sets `req.user` to the payload |
| Verification.Request.VerifyTokenAndAuthorization | middlewares/verification.js:19-30 | the outcome is `Authorize`; `req.user` stays set even when the check then refuses |
| Verification.Request.IsAdmin | middlewares/verification.js:33-36 | the outcome is `AdminOnly` of `req.user`, which is not changed |
| Scenario.OpenLibrary | controllers/book_controller.js:44-59 | creating one book in an empty store gives a store holding exactly that book, with an empty ledger |
| Scenario.LendThenRefuse | controllers/borrow_controller.js:19-58 | the first reader borrows the book; a second reader asking for it next gets "book is not available" |
| Scenario.ReturnForeignThenOwn | controllers/borrow_controller.js:60-83 | another reader cannot return the loan; its borrower can, and the book is available again |
| Scenario.LendingRound | controllers/borrow_controller.js:19-83 | borrow, refused borrow (404 with the key `mesage`), foreign return, own return, run in sequence on a fresh store, end with the book available |
| Scenario.ReshelveLent | controllers/book_controller.js:62-87 | an admin's update of the only book, lent or not, with `isAvailable: true` succeeds and leaves it available with the body's trimmed title and author and its ISBN, with the ledger unchanged |
| Scenario.LendAgain | controllers/borrow_controller.js:19-58 | a second reader then borrows the reshelved book, and two active records name it |
| Scenario.DoubleLend | controllers/book_controller.js:72-85 | an admin update that sets a lent book's flag back to `true` lets a second reader borrow it, leaving two active records for one book |
| Scenario.BlankTitleFacts | models/Book.js:47 | a title of two spaces passes Joi's `min(2)`, and `trim` stores it as the empty string |
| Scenario.BlankTitle | controllers/book_controller.js:62-87 | an admin's update of the only book with a two-space title succeeds and stores the title as empty, with the book still available |
| Scenario.FailedLends | controllers/borrow_controller.js:38-44 | two borrows of a book whose title is empty both fail with `BookNotSaved`, leave two records in the ledger and the book available |
| Scenario.BlankTitleLend | controllers/borrow_controller.js:38-44 | after that update, every borrow is answered 500 while its record stays: two records and the book still available |

## Left out

- Concurrency is not modelled. Each handler runs as one atomic step, so the window between reading the flag and writing it in `borrowBook` (controllers/borrow_controller.js:30-44) never opens. Neither do double-lending races between concurrent requests.
- BorrowBook: of the ways the second write (`book.save()`, controllers/borrow_controller.js:44) can fail after the record was created, only the one that always happens is modelled: `required` on an empty stored title, author or ISBN (`BookNotSaved`). A transient database fault there is not modelled.
- The `populate` joins of both listings are left out. They only decorate the answer.
- The text of Joi's error messages is not modelled: a failed validation is the error value `InvalidBody`/`InvalidBook` with status 400, and `BorrowFailureReply` takes the message as a parameter. The body of Express's default 500 answer is not modelled either; `CatalogFailureStatus` gives only its status.
- Some Joi grammars are not modelled:
  - `uri()` is read as "a non-empty string";
  - `date()` is the three-way `DateInput`;
  - `boolean()` does not accept the strings `"true"` and `"false"`.
- GetBooks: `title` and `author` are matched as literal substrings with ASCII-only case folding. The code passes them to MongoDB as regular expressions, and that regex syntax is not modelled.
- GetBooks and GetAllBorrows require `page >= 1` and `limit >= 1`, with the query strings already read as integers. MongoDB's own treatment of a zero or negative `skip`/`limit`, and of text that is not a number, is not part of this model. `currentPage` is that integer, not the query string.
- Paging.TotalPages uses exact integer division. JavaScript's floating-point `Math.ceil(total / limit)` agrees with it for totals below 2^53.
- ReturnBook takes the record id as a ledger position. The CastError (500) that a malformed `:id` causes is not modelled.
- BorrowBook looks users up by the token's `userId` as a plain key. The CastError a malformed `userId` would cause is not modelled.
- CreateBook stores the requester's id as `addedBy` as it is. The ObjectId cast the schema's `addedBy` path applies (models/Book.js:35-39) is not modelled; a token's `userId` is an ObjectId's text.
- ObjectIds.CastObjectId accepts only the 24-hex form of an id. The 12-byte string form that Mongoose also accepts is left out.
- UpdateBook: the missing `return` after the 404 (controllers/book_controller.js:64-66) is not modelled. When the book is missing, the code keeps going and later fails with "headers already sent" at the transport level. Its `findByIdAndUpdate` changes nothing in that case, so the model answers `BookNotFound` with the store unchanged.
- UpdateBook assumes Mongoose 6 or later, which drops `undefined` keys from `$set`, so absent fields are left unchanged. Update validators are off, so `findByIdAndUpdate` does not check `required` and can store a title or author that trims to nothing. `book.save()` in `borrowBook` validates the whole document and checks `required` again; that is `BookNotSaved`.
- ToStr: numbers are exact integers and are printed with every digit. Model numbers agree with JavaScript's, and print the same digits, only below 2^53: above it JavaScript rounds to the nearest double and prints the shortest digits that round-trip (2^60 prints as `1152921504606847000`), and from 10^21 up it uses exponent form (`1e+21`). `NumericOwnerPasses` is therefore stated below 2^53; fractional numbers are not modelled.
- NewBorrow: `borrowedAt` and the `Date.now()` behind the default `dueDate` (models/Borrow.js:17-27) are two clock readings in the code and one reading `now` in the model, so the due date is exactly fourteen days after `borrowedAt`; a millisecond tick between the two readings is not modelled.
- Timestamps (`createdAt`, `updatedAt`) are not modelled, and neither is the ObjectId driver's id generation (`newId` is a parameter).
- The overdue sweep is not modelled, because the code has none. `uploadBookCover` is not modelled, because it is not defined in the book controller.
- The user and auth controllers, routes, the server and the database connection are not part of this model. They are thin wrappers over bcrypt, `jsonwebtoken` and Mongoose CRUD.
- `jwt.verify` is not modelled. It is the `verify` parameter, and its signature and expiry checks are not modelled.
