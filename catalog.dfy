/** The catalog routes: creating, updating and deleting books, and the two
    read-only filters (books with a copy on the shelf, distinct categories). */
module Catalog {
  import opened Results
  import opened Records

  // --------------------------------------------------------------- create

  /** The fields a create request may carry; `None` is a key the request left out. */
  datatype BookInput = BookInput(
    isbn: string,
    title: string,
    author: string,
    publisher: Option<string>,
    publicationYear: Option<int>,
    category: Option<string>,
    totalCopies: Option<int>,
    availableCopies: Option<int>,
    location: Option<string>)

  /** The record a create request inserts.  Total copies default to one;
      available copies default to the total, and nothing relates the two
      when both are given. */
  function NewBook(input: BookInput, now: int): (b: Book)
    ensures b.isbn == input.isbn && b.title == input.title && b.author == input.author
    ensures b.publisher == input.publisher && b.publicationYear == input.publicationYear
    ensures b.category == input.category && b.location == input.location
    ensures b.totalCopies == (if input.totalCopies.Some? then input.totalCopies.value else DefaultTotalCopies)
    ensures input.availableCopies.Some? ==> b.availableCopies == input.availableCopies.value
    ensures input.availableCopies.None? ==> b.availableCopies == b.totalCopies
    ensures input.totalCopies.None? && input.availableCopies.None? ==>
              b.totalCopies == DefaultTotalCopies && b.availableCopies == DefaultAvailableCopies
    ensures b.createdAt == now
  {
    var total := input.totalCopies.GetOr(DefaultTotalCopies);
    Book(input.isbn, input.title, input.author, input.publisher, input.publicationYear,
         input.category, total, input.availableCopies.GetOr(total), input.location, now)
  }

  /** `create_book`: refused when the ISBN is already catalogued; otherwise the
      new book is stored under the next row id, which is the result. */
  function CreateBook(books: map<nat, Book>, input: BookInput, now: int): (r: (Result<nat>, map<nat, Book>))
    ensures r.0.Err? <==> IsbnTaken(books, input.isbn)
    ensures r.0.Err? ==> r.0.error == Rejected(DuplicateIsbn) && r.1 == books
    ensures r.0.Ok? ==> r.0.value !in books && r.1 == books[r.0.value := NewBook(input, now)]
    ensures IsbnsUnique(books) ==> IsbnsUnique(r.1)
  {
    if IsbnTaken(books, input.isbn) then (Err(Rejected(DuplicateIsbn)), books)
    else
      var id := NextId(books.Keys);
      (Ok(id), books[id := NewBook(input, now)])
  }

  // --------------------------------------------------------------- update

  /** One key of an update request.  Keys that name no attribute of a book
      are kept as `SetUnknown`. */
  datatype BookUpdate =
    | SetIsbn(isbn: string)
    | SetTitle(title: string)
    | SetAuthor(author: string)
    | SetPublisher(publisher: Option<string>)
    | SetPublicationYear(year: Option<int>)
    | SetCategory(category: Option<string>)
    | SetTotalCopies(total: int)
    | SetAvailableCopies(available: int)
    | SetLocation(location: Option<string>)
    | SetId(id: int)
    | SetCreatedAt(createdAt: int)
    | SetUnknown(key: string)

  /** The attributes of a book record. */
  datatype BookField =
    | IsbnField | TitleField | AuthorField | PublisherField | YearField | CategoryField
    | TotalField | AvailableField | LocationField | CreatedAtField

  /** The attribute an update key names; the row id is the store's key, not a field. */
  function FieldOf(u: BookUpdate): Option<BookField> {
    match u
    case SetIsbn(_) => Some(IsbnField)
    case SetTitle(_) => Some(TitleField)
    case SetAuthor(_) => Some(AuthorField)
    case SetPublisher(_) => Some(PublisherField)
    case SetPublicationYear(_) => Some(YearField)
    case SetCategory(_) => Some(CategoryField)
    case SetTotalCopies(_) => Some(TotalField)
    case SetAvailableCopies(_) => Some(AvailableField)
    case SetLocation(_) => Some(LocationField)
    case SetCreatedAt(_) => Some(CreatedAtField)
    case SetId(_) => None
    case SetUnknown(_) => None
  }

  /** Attributes the update route never overwrites (besides `id`). */
  predicate Protected(f: BookField) {
    f == CreatedAtField
  }

  /** One `setattr` step: a protected or unknown key leaves the book as it is. */
  function Assign(b: Book, u: BookUpdate): Book {
    match u
    case SetIsbn(x) => b.(isbn := x)
    case SetTitle(x) => b.(title := x)
    case SetAuthor(x) => b.(author := x)
    case SetPublisher(x) => b.(publisher := x)
    case SetPublicationYear(x) => b.(publicationYear := x)
    case SetCategory(x) => b.(category := x)
    case SetTotalCopies(x) => b.(totalCopies := x)
    case SetAvailableCopies(x) => b.(availableCopies := x)
    case SetLocation(x) => b.(location := x)
    case SetCreatedAt(_) => b
    case SetId(_) => b
    case SetUnknown(_) => b
  }

  /** The request's keys applied in order. */
  function ApplyUpdates(b: Book, us: seq<BookUpdate>): Book {
    if us == [] then b else Assign(ApplyUpdates(b, us[..|us| - 1]), us[|us| - 1])
  }

  /** The update that would write `b`'s own value of `f` back. */
  function Current(b: Book, f: BookField): (u: BookUpdate)
    ensures FieldOf(u) == Some(f)
  {
    match f
    case IsbnField => SetIsbn(b.isbn)
    case TitleField => SetTitle(b.title)
    case AuthorField => SetAuthor(b.author)
    case PublisherField => SetPublisher(b.publisher)
    case YearField => SetPublicationYear(b.publicationYear)
    case CategoryField => SetCategory(b.category)
    case TotalField => SetTotalCopies(b.totalCopies)
    case AvailableField => SetAvailableCopies(b.availableCopies)
    case LocationField => SetLocation(b.location)
    case CreatedAtField => SetCreatedAt(b.createdAt)
  }

  /** The last key of the request that names `f`, if any. */
  function LastFor(us: seq<BookUpdate>, f: BookField): (r: Option<BookUpdate>)
    ensures r.Some? ==> r.value in us && FieldOf(r.value) == Some(f)
    ensures r.None? <==> forall i :: 0 <= i < |us| ==> FieldOf(us[i]) != Some(f)
  {
    if us == [] then None
    else if FieldOf(us[|us| - 1]) == Some(f) then Some(us[|us| - 1])
    else LastFor(us[..|us| - 1], f)
  }

  /** A book is determined by its attributes. */
  lemma BookByFields(a: Book, b: Book)
    requires forall f :: Current(a, f) == Current(b, f)
    ensures a == b
  {
    assert Current(a, IsbnField) == Current(b, IsbnField);
    assert Current(a, TitleField) == Current(b, TitleField);
    assert Current(a, AuthorField) == Current(b, AuthorField);
    assert Current(a, PublisherField) == Current(b, PublisherField);
    assert Current(a, YearField) == Current(b, YearField);
    assert Current(a, CategoryField) == Current(b, CategoryField);
    assert Current(a, TotalField) == Current(b, TotalField);
    assert Current(a, AvailableField) == Current(b, AvailableField);
    assert Current(a, LocationField) == Current(b, LocationField);
    assert Current(a, CreatedAtField) == Current(b, CreatedAtField);
  }

  lemma AssignField(b: Book, u: BookUpdate, f: BookField)
    ensures Current(Assign(b, u), f) ==
              if FieldOf(u) == Some(f) && !Protected(f) then u else Current(b, f)
  {
  }

  /** After an update every attribute holds the value of the last key that
      names it, unless it is protected or not named at all, in which case it
      is unchanged.  This covers `available_copies` and `isbn` too. */
  lemma {:induction false} UpdatedFields(b: Book, us: seq<BookUpdate>, f: BookField)
    ensures Current(ApplyUpdates(b, us), f) ==
              if !Protected(f) && LastFor(us, f).Some? then LastFor(us, f).value else Current(b, f)
  {
    if us != [] {
      var init := us[..|us| - 1];
      UpdatedFields(b, init, f);
      AssignField(ApplyUpdates(b, init), us[|us| - 1], f);
    }
  }

  /** The creation time survives every update. */
  lemma UpdateKeepsCreatedAt(b: Book, us: seq<BookUpdate>)
    ensures ApplyUpdates(b, us).createdAt == b.createdAt
  {
    UpdatedFields(b, us, CreatedAtField);
  }

  /** A request without any writable key leaves the book unchanged. */
  lemma UpdateWithoutWritableKeys(b: Book, us: seq<BookUpdate>)
    requires forall i :: 0 <= i < |us| ==> FieldOf(us[i]).None? || Protected(FieldOf(us[i]).value)
    ensures ApplyUpdates(b, us) == b
  {
    forall f ensures Current(ApplyUpdates(b, us), f) == Current(b, f) {
      UpdatedFields(b, us, f);
    }
    BookByFields(ApplyUpdates(b, us), b);
  }

  /** The copy counters are written as given: nothing keeps
      `available_copies` within `0..total_copies`. */
  lemma UpdateSetsAvailableFreely(b: Book, n: int)
    ensures ApplyUpdates(b, [SetAvailableCopies(n)]).availableCopies == n
    ensures ApplyUpdates(b, [SetAvailableCopies(n)]).totalCopies == b.totalCopies
  {
    assert [SetAvailableCopies(n)][..0] == [];
  }

  predicate IsbnTakenByOther(books: map<nat, Book>, id: nat, isbn: string) {
    exists k :: k in books && k != id && books[k].isbn == isbn
  }

  /** `update_book`: the keys are applied to the stored book; the unique
      `isbn` column makes the commit fail when the new ISBN belongs to
      another book. */
  function UpdateBook(books: map<nat, Book>, id: nat, us: seq<BookUpdate>): (r: (Result<Book>, map<nat, Book>))
    ensures id !in books ==> r == (Err(NotFound), books)
    ensures id in books && IsbnTakenByOther(books, id, ApplyUpdates(books[id], us).isbn) ==>
              r == (Err(Rejected(UniqueConstraint)), books)
    ensures r.0.Ok? <==> id in books && !IsbnTakenByOther(books, id, ApplyUpdates(books[id], us).isbn)
    ensures r.0.Ok? ==> r.0.value == ApplyUpdates(books[id], us) && r.1 == books[id := r.0.value]
    ensures IsbnsUnique(books) ==> IsbnsUnique(r.1)
  {
    if id !in books then (Err(NotFound), books)
    else
      var b := ApplyUpdates(books[id], us);
      if IsbnTakenByOther(books, id, b.isbn) then (Err(Rejected(UniqueConstraint)), books)
      else (Ok(b), books[id := b])
  }

  // --------------------------------------------------------------- delete

  /** `delete_book`: no guard; exactly that book leaves the catalog. */
  function DeleteBook(books: map<nat, Book>, id: nat): (r: (Outcome, map<nat, Book>))
    ensures r.0.Failed? <==> id !in books
    ensures r.0.Failed? ==> r.0.error == NotFound && r.1 == books
    ensures r.1.Keys == books.Keys - {id}
    ensures forall k :: k in r.1 ==> r.1[k] == books[k]
    ensures IsbnsUnique(books) ==> IsbnsUnique(r.1)
  {
    if id !in books then (Failed(NotFound), books) else (Done, books - {id})
  }

  // -------------------------------------------------------------- filters

  /** `get_available_books`: the books with at least one copy on the shelf. */
  function AvailableBooks(books: map<nat, Book>): (r: map<nat, Book>)
    ensures forall k :: k in r <==> k in books && books[k].availableCopies > 0
    ensures forall k :: k in r ==> r[k] == books[k]
  {
    map k | k in books && books[k].availableCopies > 0 :: books[k]
  }

  /** `get_categories`: each category that some book has, once; missing and
      empty categories are dropped. */
  function Categories(books: map<nat, Book>): (r: set<string>)
    ensures forall c :: c in r <==> c != "" && exists k :: k in books && books[k].category == Some(c)
  {
    set k | k in books && books[k].category.Some? && books[k].category.value != "" :: books[k].category.value
  }
}
