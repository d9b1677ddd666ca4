/**
 The logic of `Library` (main.py) over its ordered list of books: the
 queries `find_book_by_id` and `search_books`, and one step function per
 mutating operation (`add_book`, `remove_book`, `change_status`) that gives
 the reported outcome together with the list the operation leaves behind.
 The class in library.dfy is proved to follow these functions.
 */
module Catalogue {
  import opened Wrappers
  import opened Text
  import opened Books

  /** The hard-coded upper bound on a publication year. */
  const MaxYear: int := 2024

  /** What an operation reports instead of the messages main.py prints. */
  datatype Outcome =
    | Added(id: int)
    | Removed(id: int)
    | StatusChanged(id: int)
    | EmptyLibrary
    | BlankTitle
    | BlankAuthor
    | YearNotInteger
    | YearOutOfRange
    | DuplicateBook
    | IdNotInteger
    | IdNotPositive
    | InvalidStatus
    | NotFound
    | RemovalCancelled

  /** The outcome of one operation and the list of books after it. */
  datatype Step = Step(outcome: Outcome, books: seq<Book>)

  // ---------------------------------------------------------------- queries

  /** `max([book.id for book in books], default=0)`. */
  function MaxId(books: seq<Book>): (m: int)
    ensures books == [] ==> m == 0
    ensures forall k :: 0 <= k < |books| ==> books[k].id <= m
    ensures books != [] ==> exists k :: 0 <= k < |books| && books[k].id == m
  {
    if books == [] then 0
    else if |books| == 1 then books[0].id
    else
      var rest := MaxId(books[1..]);
      assert forall k :: 1 <= k < |books| ==> books[k] == books[1..][k - 1];
      if books[0].id > rest then books[0].id else rest
  }

  /** Two books describe the same edition: equal title, author and year. */
  predicate SameEntry(a: Book, b: Book) {
    IsEntry(a, b.title, b.author, b.year)
  }

  /** The book has exactly this title, author and year (compared case-sensitively, untrimmed). */
  predicate IsEntry(b: Book, title: string, author: string, year: int) {
    b.title == title && b.author == author && b.year == year
  }

  /** Some book has exactly this title, author and year. */
  predicate HasEntry(books: seq<Book>, title: string, author: string, year: int) {
    exists k :: 0 <= k < |books| && IsEntry(books[k], title, author, year)
  }

  /** The position of the first book with the given id. */
  function IndexOfId(books: seq<Book>, id: int): (r: Option<nat>)
    ensures r.Some? ==> r.value < |books| && books[r.value].id == id
    ensures r.Some? ==> forall k :: 0 <= k < r.value ==> books[k].id != id
    ensures r.None? <==> forall k :: 0 <= k < |books| ==> books[k].id != id
  {
    if books == [] then None
    else if books[0].id == id then Some(0)
    else
      match IndexOfId(books[1..], id)
      case None =>
        assert forall k :: 1 <= k < |books| ==> books[k] == books[1..][k - 1];
        None
      case Some(i) => Some(i + 1)
  }

  /** `find_book_by_id`: the first book whose id is `id`, or `None`. */
  function FindById(books: seq<Book>, id: int): (r: Option<Book>)
    ensures r.None? <==> forall k :: 0 <= k < |books| ==> books[k].id != id
    ensures r.Some? ==> r.value.id == id
    ensures r.Some? ==> exists k :: 0 <= k < |books| && books[k] == r.value
                                    && forall j :: 0 <= j < k ==> books[j].id != id
  {
    match IndexOfId(books, id)
    case None => None
    case Some(i) => Some(books[i])
  }

  /** `list.index(x)`: the position of the first element equal to `x`. */
  function FirstIndexOf<T(==)>(s: seq<T>, x: T): (i: nat)
    requires x in s
    ensures i < |s| && s[i] == x && forall j :: 0 <= j < i ==> s[j] != x
  {
    if s[0] == x then 0
    else
      assert x in s[1..];
      var i := FirstIndexOf(s[1..], x);
      assert s[i + 1] == s[1..][i];
      assert forall j :: 1 <= j < i + 1 ==> s[j] == s[1..][j - 1];
      i + 1
  }

  /** `list.remove(x)`: drop the first element equal to `x`. */
  function RemoveFirst<T(==)>(s: seq<T>, x: T): (r: seq<T>)
    requires x in s
    ensures exists i :: 0 <= i < |s| && s[i] == x && (forall j :: 0 <= j < i ==> s[j] != x)
                        && r == s[..i] + s[i + 1..]
  {
    var i := FirstIndexOf(s, x);
    s[..i] + s[i + 1..]
  }

  /** `str(getattr(book, key, ""))`: the text of the named field, or "" for any other name. */
  function FieldText(b: Book, key: string): (s: string) {
    if key == "id" then IntToString(b.id)
    else if key == "title" then b.title
    else if key == "author" then b.author
    else if key == "year" then IntToString(b.year)
    else if key == "status" then b.status
    else ""
  }

  /** `value.lower() in str(getattr(book, key, "")).lower()`. */
  predicate Matches(b: Book, key: string, value: string) {
    Contains(Lower(value), Lower(FieldText(b, key)))
  }

  /** `search_books`: the books that match, in catalogue order. */
  function Search(books: seq<Book>, key: string, value: string): (r: seq<Book>)
    ensures |r| <= |books|
    ensures forall b :: b in r <==> b in books && Matches(b, key, value)
  {
    if books == [] then []
    else
      var rest := Search(books[1..], key, value);
      assert forall b :: b in books <==> b == books[0] || b in books[1..];
      (if Matches(books[0], key, value) then [books[0]] else []) + rest
  }

  // ------------------------------------------------------- catalogue invariant

  /** A book as `add_book` and `change_status` would leave it. */
  predicate WellFormed(b: Book) {
    b.id > 0 && !IsBlank(b.title) && !IsBlank(b.author) && 0 <= b.year <= MaxYear && ValidStatus(b.status)
  }

  predicate UniqueIds(books: seq<Book>) {
    forall i, j :: 0 <= i < j < |books| ==> books[i].id != books[j].id
  }

  predicate PositiveIds(books: seq<Book>) {
    forall k :: 0 <= k < |books| ==> books[k].id > 0
  }

  predicate DistinctEntries(books: seq<Book>) {
    forall i, j :: 0 <= i < j < |books| ==> !SameEntry(books[i], books[j])
  }

  /** Every book well formed, no id twice, no (title, author, year) twice. */
  predicate Valid(books: seq<Book>) {
    (forall k :: 0 <= k < |books| ==> WellFormed(books[k])) && UniqueIds(books) && DistinctEntries(books)
  }

  // ------------------------------------------------------------- operations

  /** `add_book(title, author, year)`. */
  function AddStep(books: seq<Book>, title: string, author: string, yearText: string): (r: Step)
    ensures r.outcome.Added? || r.books == books
    ensures r.outcome.Added? ==> |r.books| == |books| + 1 && r.books[..|books|] == books
  {
    if IsBlank(title) then Step(BlankTitle, books)
    else if IsBlank(author) then Step(BlankAuthor, books)
    else
      match ParseInt(yearText)
      case None => Step(YearNotInteger, books)
      case Some(year) =>
        if year < 0 || year > MaxYear then Step(YearOutOfRange, books)
        else if HasEntry(books, title, author, year) then Step(DuplicateBook, books)
        else
          var id := MaxId(books) + 1;
          Step(Added(id), books + [NewBook(id, title, author, year)])
  }

  /** The reply that confirms a removal: `answer.strip().lower() == "да"` ("yes"). */
  predicate Confirms(answer: string) {
    Lower(Strip(answer)) == "да"
  }

  /** `remove_book(book_id)`, with `answer` the reply to the confirmation prompt. */
  function RemoveStep(books: seq<Book>, idText: string, answer: string): (r: Step)
    ensures r.outcome.Removed? || r.books == books
    ensures r.outcome.Removed? ==> |r.books| == |books| - 1
  {
    if books == [] then Step(EmptyLibrary, books)
    else
      match ParseInt(idText)
      case None => Step(IdNotInteger, books)
      case Some(id) =>
        if id <= 0 then Step(IdNotPositive, books)
        else
          match FindById(books, id)
          case None => Step(NotFound, books)
          case Some(book) =>
            if !Confirms(answer) then Step(RemovalCancelled, books)
            else Step(Removed(id), RemoveFirst(books, book))
  }

  /** `change_status(book_id, new_status)`: the found book is updated in place. */
  function ChangeStatusStep(books: seq<Book>, idText: string, newStatus: string): (r: Step)
    ensures r.outcome.StatusChanged? || r.books == books
    ensures |r.books| == |books|
    ensures forall k :: 0 <= k < |books| ==> r.books[k] == books[k].(status := r.books[k].status)
  {
    if books == [] then Step(EmptyLibrary, books)
    else
      match ParseInt(idText)
      case None => Step(IdNotInteger, books)
      case Some(id) =>
        if id <= 0 then Step(IdNotPositive, books)
        else if !ValidStatus(newStatus) then Step(InvalidStatus, books)
        else
          match IndexOfId(books, id)
          case None => Step(NotFound, books)
          case Some(i) => Step(StatusChanged(id), books[i := books[i].(status := newStatus)])
  }
}
