/**
 * The Book schema: its stored fields and defaults, the five categories, and the
 * request-body validator the create and update handlers run before touching the store.
 */
module BookModel {
  import opened Common
  import opened Text
  import opened JsValue

  datatype Category = Fiction | NonFiction | Science | History | Biography

  function CategoryName(c: Category): string {
    match c
    case Fiction => "Fiction"
    case NonFiction => "Non-Fiction"
    case Science => "Science"
    case History => "History"
    case Biography => "Biography"
  }

  /** The category a string names, if it names one of the five. */
  function ParseCategory(s: string): (r: Option<Category>)
    ensures r.Some? ==> CategoryName(r.value) == s
    ensures r.None? ==> forall c :: CategoryName(c) != s
  {
    if s == "Fiction" then Some(Fiction)
    else if s == "Non-Fiction" then Some(NonFiction)
    else if s == "Science" then Some(Science)
    else if s == "History" then Some(History)
    else if s == "Biography" then Some(Biography)
    else None
  }

  /** Naming a category and parsing the name back is the identity. */
  lemma ParseCategoryName(c: Category)
    ensures ParseCategory(CategoryName(c)) == Some(c)
  {
  }

  const DefaultCategory: Category := Fiction

  /** A stored book. `addedBy` is the id of the admin who created it; timestamps are not modelled. */
  datatype Book = Book(
    title: string,
    author: string,
    isbn: string,
    category: Category,
    coverImage: Option<string>,
    isAvailable: bool,
    addedBy: string)

  /** A request body as the book handlers see it; `unknown` holds any keys outside the schema. */
  datatype BookBody = BookBody(
    title: Json,
    author: Json,
    isbn: Json,
    category: Json,
    coverImage: Json,
    isAvailable: Json,
    unknown: set<string>)

  /** Joi `string().min(lo).max(hi).required()`; Joi measures `value.length`, in UTF-16 code units. */
  predicate StringOfLength(v: Json, lo: nat, hi: nat) {
    v.Str? && lo <= Utf16Length(v.s) <= hi
  }

  /**
   * Joi `string().length(13).pattern(/^[0-9]+$/).required()`. For a digit string the UTF-16 length
   * Joi measures is the number of characters (`IsbnLength`).
   */
  predicate IsIsbn(v: Json) {
    v.Str? && |v.s| == 13 && AllDigits(v.s)
  }

  /** The ISBN check reads the same with Joi's UTF-16 length. */
  lemma IsbnLength(v: Json)
    ensures IsIsbn(v) <==> v.Str? && Utf16Length(v.s) == 13 && AllDigits(v.s)
  {
    if v.Str? && AllDigits(v.s) {
      DigitsUtf16Length(v.s);
    }
  }

  /** Joi `string().valid(...the five names...)`, optional. */
  predicate IsCategoryOrAbsent(v: Json) {
    v.Missing? || (v.Str? && ParseCategory(v.s).Some?)
  }

  /** Joi `string().uri()`, optional; the URI grammar itself is not modelled, only "a non-empty string". */
  predicate IsCoverImageOrAbsent(v: Json) {
    v.Missing? || (v.Str? && v.s != "")
  }

  /** Joi `boolean()`, optional. */
  predicate IsBooleanOrAbsent(v: Json) {
    v.Missing? || v.Bool?
  }

  /** `validateBook(body)` reports no error. */
  predicate ValidateBook(body: BookBody) {
    && StringOfLength(body.title, 2, 100)
    && StringOfLength(body.author, 2, 50)
    && IsIsbn(body.isbn)
    && IsCategoryOrAbsent(body.category)
    && IsCoverImageOrAbsent(body.coverImage)
    && IsBooleanOrAbsent(body.isAvailable)
    && body.unknown == {}
  }

  /** A single character outside the Basic Multilingual Plane is two units long, so it meets `min(2)`. */
  lemma AstralTitleLength(c: char)
    requires c as int >= 0x10000
    ensures StringOfLength(Str([c]), 2, 100)
  {
    assert [c][..0] == [];
  }

  /** The category a validated body asks for: as given, or the schema default. */
  function RequestedCategory(v: Json): (c: Category)
    requires IsCategoryOrAbsent(v)
    ensures v.Missing? ==> c == DefaultCategory
    ensures v.Str? ==> CategoryName(c) == v.s
  {
    if v.Missing? then DefaultCategory else ParseCategory(v.s).value
  }

  /** What a valid body guarantees about each field. */
  lemma ValidBookFields(body: BookBody)
    requires ValidateBook(body)
    ensures body.title.Str? && 2 <= Utf16Length(body.title.s) <= 100 && 1 <= |body.title.s| <= 100
    ensures body.author.Str? && 2 <= Utf16Length(body.author.s) <= 50 && 1 <= |body.author.s| <= 50
    ensures body.isbn.Str? && |body.isbn.s| == 13 && forall i :: 0 <= i < 13 ==> '0' <= body.isbn.s[i] <= '9'
    ensures body.category.Missing? || body.category.s in ["Fiction", "Non-Fiction", "Science", "History", "Biography"]
    ensures body.isAvailable.Missing? || body.isAvailable.Bool?
  {
    if body.category.Str? {
      var c := ParseCategory(body.category.s).value;
      assert CategoryName(c) == body.category.s;
    }
  }

  /**
   * The document `Book.create` stores for a validated body (controllers/book_controller.js:50-56):
   * title, author and ISBN pass through the schema's `trim` setter, the category falls back to
   * its default, and the body's cover image and availability are not copied, so the book starts
   * available with no cover.
   */
  function NewBook(body: BookBody, addedBy: string): (b: Book)
    requires ValidateBook(body)
    ensures b.isAvailable && b.coverImage == None && b.addedBy == addedBy
    ensures b.title == Trim(body.title.s) && b.author == Trim(body.author.s)
    ensures b.isbn == body.isbn.s
    ensures b.category == RequestedCategory(body.category)
  {
    TrimDigits(body.isbn.s);
    Book(Trim(body.title.s), Trim(body.author.s), Trim(body.isbn.s),
         RequestedCategory(body.category), None, true, addedBy)
  }

  /** Mongoose's `required` check on the trimmed strings: an empty string fails it. */
  predicate PassesRequired(b: Book) {
    b.title != "" && b.author != "" && b.isbn != ""
  }

  /**
   * The `$set` of `updateBook` (controllers/book_controller.js:72-84) applied to a stored book.
   * Keys the body leaves out are left unchanged (Mongoose drops `undefined` from an update);
   * the strings are trimmed; `addedBy` is not touched.
   */
  function ApplyUpdate(b: Book, body: BookBody): (u: Book)
    requires ValidateBook(body)
    ensures u.title == Trim(body.title.s) && u.author == Trim(body.author.s) && u.isbn == body.isbn.s
    ensures u.category == if body.category.Missing? then b.category else RequestedCategory(body.category)
    ensures u.coverImage == if body.coverImage.Missing? then b.coverImage else Some(body.coverImage.s)
    ensures u.isAvailable == if body.isAvailable.Missing? then b.isAvailable else body.isAvailable.b
    ensures u.addedBy == b.addedBy
  {
    TrimDigits(body.isbn.s);
    b.(title := Trim(body.title.s),
       author := Trim(body.author.s),
       isbn := Trim(body.isbn.s),
       category := if body.category.Missing? then b.category else RequestedCategory(body.category),
       coverImage := if body.coverImage.Missing? then b.coverImage else Some(body.coverImage.s),
       isAvailable := if body.isAvailable.Missing? then b.isAvailable else body.isAvailable.b)
  }
}
