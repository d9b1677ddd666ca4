/**
 What the catalogue operations promise, proved about the step functions
 and queries of module Catalogue.
 */
module CatalogueProperties {
  import opened Wrappers
  import opened Text
  import opened Books
  import opened Catalogue

  // ------------------------------------------------------------- helpers

  /** Dropping position `i` keeps the other books in their order. */
  lemma RemovedAt(s: seq<Book>, i: nat, k: nat)
    requires i < |s| && k < |s| - 1
    ensures |s[..i] + s[i + 1..]| == |s| - 1
    ensures (s[..i] + s[i + 1..])[k] == if k < i then s[k] else s[k + 1]
  {
  }

  /** Dropping one book keeps ids unique and entries distinct, and every book well formed. */
  lemma RemovedAtValid(s: seq<Book>, i: nat)
    requires i < |s| && Valid(s)
    ensures Valid(s[..i] + s[i + 1..])
  {
    var t := s[..i] + s[i + 1..];
    forall a | 0 <= a < |t| ensures WellFormed(t[a]) {
      RemovedAt(s, i, a);
    }
    forall a, b | 0 <= a < b < |t| ensures t[a].id != t[b].id && !SameEntry(t[a], t[b]) {
      RemovedAt(s, i, a);
      RemovedAt(s, i, b);
    }
  }

  /** A book appended with an id larger than every other is the first with its id. */
  lemma LastIndexOfId(books: seq<Book>, b: Book)
    requires forall k :: 0 <= k < |books| ==> books[k].id < b.id
    ensures IndexOfId(books + [b], b.id) == Some(|books|)
  {
    var t := books + [b];
    assert t[|books|] == b;
    assert forall k :: 0 <= k < |books| ==> t[k] == books[k];
  }

  /** When all ids are positive the largest id is not negative. */
  lemma MaxIdOfPositive(books: seq<Book>)
    requires forall k :: 0 <= k < |books| ==> books[k].id > 0
    ensures MaxId(books) >= 0
  {
    if books != [] {
      assert books[0].id <= MaxId(books);
    }
  }

  // ------------------------------------------------------------- add_book

  /**
   `add_book` checks title, author, year format, year range and duplicates in
   that order; the first check that fails is the outcome, and the list is left as it was.
   */
  lemma AddRejections(books: seq<Book>, title: string, author: string, yearText: string)
    ensures var r := AddStep(books, title, author, yearText);
            var y := ParseInt(yearText);
            && (r.outcome == BlankTitle <==> IsBlank(title))
            && (r.outcome == BlankAuthor <==> !IsBlank(title) && IsBlank(author))
            && (r.outcome == YearNotInteger <==> !IsBlank(title) && !IsBlank(author) && y.None?)
            && (r.outcome == YearOutOfRange <==>
                  !IsBlank(title) && !IsBlank(author) && y.Some? && !(0 <= y.value <= MaxYear))
            && (r.outcome == DuplicateBook <==>
                  !IsBlank(title) && !IsBlank(author) && y.Some? && 0 <= y.value <= MaxYear
                  && HasEntry(books, title, author, y.value))
            && (!r.outcome.Added? ==> r.books == books)
  {
  }

  /**
   A valid, new book is appended as the only change: it gets id
   `max(existing ids, default 0) + 1`, larger than every existing id, and the status "available".
   */
  lemma AddSucceeds(books: seq<Book>, title: string, author: string, yearText: string)
    ensures var r := AddStep(books, title, author, yearText);
            var y := ParseInt(yearText);
            r.outcome.Added? <==>
              !IsBlank(title) && !IsBlank(author) && y.Some? && 0 <= y.value <= MaxYear
              && !HasEntry(books, title, author, y.value)
    ensures var r := AddStep(books, title, author, yearText);
            r.outcome.Added? ==>
              && r.outcome.id == MaxId(books) + 1
              && r.books == books + [Book(r.outcome.id, title, author, ParseInt(yearText).value, Available)]
              && (forall k :: 0 <= k < |books| ==> books[k].id < r.outcome.id)
              && ((forall k :: 0 <= k < |books| ==> books[k].id > 0) ==> r.outcome.id > 0)
  {
    var r := AddStep(books, title, author, yearText);
    if r.outcome.Added? && forall k :: 0 <= k < |books| ==> books[k].id > 0 {
      MaxIdOfPositive(books);
    }
  }

  /** Appending a well-formed book with a new, larger id and a new entry keeps the invariant. */
  lemma AppendValid(books: seq<Book>, b: Book)
    requires Valid(books) && WellFormed(b)
    requires forall k :: 0 <= k < |books| ==> books[k].id < b.id
    requires !HasEntry(books, b.title, b.author, b.year)
    ensures Valid(books + [b])
  {
    var t := books + [b];
    var n := |books|;
    forall k | 0 <= k < |t| ensures WellFormed(t[k]) {
      if k < n { assert t[k] == books[k]; }
    }
    forall i, j | 0 <= i < j < |t| ensures t[i].id != t[j].id && !SameEntry(t[i], t[j]) {
      assert t[i] == books[i];
      if j < n {
        assert t[j] == books[j];
      } else {
        assert t[j] == b;
        assert SameEntry(t[i], t[j]) ==> HasEntry(books, b.title, b.author, b.year);
      }
    }
  }

  /** Adding keeps the catalogue invariant: unique positive ids, distinct entries, well-formed books. */
  lemma AddPreservesValid(books: seq<Book>, title: string, author: string, yearText: string)
    requires Valid(books)
    ensures Valid(AddStep(books, title, author, yearText).books)
  {
    var r := AddStep(books, title, author, yearText);
    if r.outcome.Added? {
      AddSucceeds(books, title, author, yearText);
      var b := Book(r.outcome.id, title, author, ParseInt(yearText).value, Available);
      assert WellFormed(b);
      AppendValid(books, b);
    }
  }

  /**
   Adding keeps ids distinct and positive on any list whose ids already are,
   whatever else holds of its books: the new id exceeds every id present.
   */
  lemma AddKeepsIdsUnique(books: seq<Book>, title: string, author: string, yearText: string)
    requires UniqueIds(books) && PositiveIds(books)
    ensures var r := AddStep(books, title, author, yearText);
            UniqueIds(r.books) && PositiveIds(r.books)
  {
    var r := AddStep(books, title, author, yearText);
    if r.outcome.Added? {
      AddSucceeds(books, title, author, yearText);
      var id, n := r.outcome.id, |books|;
      assert r.books[n].id == id && id > 0;
      assert forall k :: 0 <= k < n ==> r.books[k] == books[k];
      forall i, j | 0 <= i < j < |r.books| ensures r.books[i].id != r.books[j].id {
        if j == n {
          assert books[i].id < id;
        }
      }
    }
  }

  /** What `add_book` keeps of its list: the full invariant, and distinct positive ids on their own. */
  lemma AddKeeps(books: seq<Book>, title: string, author: string, yearText: string)
    ensures Valid(books) ==> Valid(AddStep(books, title, author, yearText).books)
    ensures UniqueIds(books) && PositiveIds(books) ==>
              var r := AddStep(books, title, author, yearText);
              UniqueIds(r.books) && PositiveIds(r.books)
  {
    if Valid(books) {
      AddPreservesValid(books, title, author, yearText);
    }
    if UniqueIds(books) && PositiveIds(books) {
      AddKeepsIdsUnique(books, title, author, yearText);
    }
  }

  /** The book just added is what `find_book_by_id` returns for its id. */
  lemma AddThenFind(books: seq<Book>, title: string, author: string, yearText: string)
    ensures var r := AddStep(books, title, author, yearText);
            r.outcome.Added? ==>
              FindById(r.books, r.outcome.id) == Some(Book(r.outcome.id, title, author, ParseInt(yearText).value, Available))
  {
    var r := AddStep(books, title, author, yearText);
    if r.outcome.Added? {
      AddSucceeds(books, title, author, yearText);
      var n := |books|;
      assert r.books[n].id == r.outcome.id;
      forall k | 0 <= k < n ensures r.books[k].id != r.outcome.id {
        assert r.books[k] == books[k];
      }
      assert IndexOfId(r.books, r.outcome.id) == Some(n);
    }
  }

  /** Adding the same title, author and year a second time is reported as a duplicate and changes nothing. */
  lemma AddTwiceIsDuplicate(books: seq<Book>, title: string, author: string, yearText: string)
    ensures var r := AddStep(books, title, author, yearText);
            r.outcome.Added? ==> AddStep(r.books, title, author, yearText) == Step(DuplicateBook, r.books)
  {
    var r := AddStep(books, title, author, yearText);
    if r.outcome.Added? {
      AddSucceeds(books, title, author, yearText);
      var n := |books|;
      assert r.books[n].title == title && r.books[n].author == author && r.books[n].year == ParseInt(yearText).value;
    }
  }

  /** The confirmation prompt accepts "да" ("yes"). */
  lemma ConfirmsYes()
    ensures Confirms("да")
  {
    StripOfTrimmed("да");
  }

  /** The reply is compared after stripping and lowering, so a padded, capitalised "ДА" confirms too. */
  lemma ConfirmsPaddedCapitals()
    ensures Confirms(" ДА\n")
  {
    assert SkipLeading(" ДА\n", 0) == 1;
    assert SkipTrailing(" ДА\n", 1, 4) == 3;
    assert Strip(" ДА\n") == "ДА";
    assert Lower("ДА") == "да";
  }

  /** The reply "нет" ("no") declines. */
  lemma NoDeclines()
    ensures !Confirms("нет")
  {
    StripOfTrimmed("нет");
  }

  /** Removing, with confirmation, the book just added restores the list it was added to. */
  lemma AddThenRemove(books: seq<Book>, title: string, author: string, yearText: string)
    requires forall k :: 0 <= k < |books| ==> books[k].id > 0
    ensures var r := AddStep(books, title, author, yearText);
            r.outcome.Added? ==>
              RemoveStep(r.books, IntToString(r.outcome.id), "да") == Step(Removed(r.outcome.id), books)
  {
    var r := AddStep(books, title, author, yearText);
    if r.outcome.Added? {
      AddSucceeds(books, title, author, yearText);
      var id, n := r.outcome.id, |books|;
      var t := books + [Book(id, title, author, ParseInt(yearText).value, Available)];
      assert r.books == t;
      LastIndexOfId(books, t[n]);
      ParseIntToString(id);
      ConfirmsYes();
      RemovePresent(t, IntToString(id), "да", id, n);
      assert t[..n] + t[n + 1..] == books;
    }
  }

  /**
   Ids are reused: once the newest book is removed, the next add gets the
   id the removed book had, because the new id is computed from the ids still present.
   */
  lemma IdReusedAfterRemovingNewest(books: seq<Book>, title: string, author: string, yearText: string,
                                    title2: string, author2: string, yearText2: string)
    requires forall k :: 0 <= k < |books| ==> books[k].id > 0
    ensures var r := AddStep(books, title, author, yearText);
            r.outcome.Added? ==>
              var after := RemoveStep(r.books, IntToString(r.outcome.id), "да");
              var again := AddStep(after.books, title2, author2, yearText2);
              again.outcome.Added? ==> again.outcome.id == r.outcome.id
  {
    AddThenRemove(books, title, author, yearText);
    var r := AddStep(books, title, author, yearText);
    var again := AddStep(books, title2, author2, yearText2);
    if r.outcome.Added? && again.outcome.Added? {
      AddSucceeds(books, title, author, yearText);
      AddSucceeds(books, title2, author2, yearText2);
    }
  }

  // ---------------------------------------------------------- remove_book

  /**
   `remove_book` checks for an empty library, an id that is not an integer, an id
   that is not positive, an unknown id and a declined confirmation, in that order;
   each of them is the outcome when it is the first to fail, and the list is left as it was.
   */
  lemma RemoveRejections(books: seq<Book>, idText: string, answer: string)
    ensures var r := RemoveStep(books, idText, answer);
            var p := ParseInt(idText);
            && (r.outcome == EmptyLibrary <==> books == [])
            && (r.outcome == IdNotInteger <==> books != [] && p.None?)
            && (r.outcome == IdNotPositive <==> books != [] && p.Some? && p.value <= 0)
            && (r.outcome == NotFound <==>
                  books != [] && p.Some? && p.value > 0 && FindById(books, p.value).None?)
            && (r.outcome == RemovalCancelled <==>
                  books != [] && p.Some? && p.value > 0 && FindById(books, p.value).Some? && !Confirms(answer))
            && (!r.outcome.Removed? ==> r.books == books)
  {
  }

  /**
   A confirmed removal of a present id drops exactly the first book with that
   id and keeps the order of the others.
   */
  lemma RemovePresent(books: seq<Book>, idText: string, answer: string, id: int, i: nat)
    requires ParseInt(idText) == Some(id) && id > 0
    requires IndexOfId(books, id) == Some(i)
    requires Confirms(answer)
    ensures RemoveStep(books, idText, answer) == Step(Removed(id), books[..i] + books[i + 1..])
  {
    var book := books[i];
    assert FindById(books, id) == Some(book);
    var j :| 0 <= j < |books| && books[j] == book && (forall m :: 0 <= m < j ==> books[m] != book)
             && RemoveFirst(books, book) == books[..j] + books[j + 1..];
    assert j == i;
  }

  /** In a catalogue with unique ids, a removed id can no longer be found. */
  lemma RemoveMakesAbsent(books: seq<Book>, idText: string, answer: string)
    requires UniqueIds(books)
    ensures var r := RemoveStep(books, idText, answer);
            r.outcome.Removed? ==> FindById(r.books, r.outcome.id) == None
  {
    var r := RemoveStep(books, idText, answer);
    if r.outcome.Removed? {
      var p := ParseInt(idText);
      assert books != [] && p.Some? && p.value > 0 && FindById(books, p.value).Some? && Confirms(answer);
      var id := p.value;
      var i := IndexOfId(books, id).value;
      RemovePresent(books, idText, answer, id, i);
      forall k | 0 <= k < |r.books| ensures r.books[k].id != id {
        RemovedAt(books, i, k);
      }
    }
  }

  /** Removing keeps the catalogue invariant. */
  lemma RemovePreservesValid(books: seq<Book>, idText: string, answer: string)
    requires Valid(books)
    ensures Valid(RemoveStep(books, idText, answer).books)
  {
    var r := RemoveStep(books, idText, answer);
    if r.outcome.Removed? {
      var p := ParseInt(idText);
      assert books != [] && p.Some? && p.value > 0 && FindById(books, p.value).Some? && Confirms(answer);
      var id := p.value;
      var i := IndexOfId(books, id).value;
      RemovePresent(books, idText, answer, id, i);
      RemovedAtValid(books, i);
    }
  }

  // -------------------------------------------------------- change_status

  /**
   `change_status` checks for an empty library, a bad id, a status outside
   {"в наличии", "выдана"} and an unknown id, in that order; a failing check
   is the outcome and no book changes.
   */
  lemma ChangeStatusRejections(books: seq<Book>, idText: string, newStatus: string)
    ensures var r := ChangeStatusStep(books, idText, newStatus);
            var p := ParseInt(idText);
            && (r.outcome == EmptyLibrary <==> books == [])
            && (r.outcome == IdNotInteger <==> books != [] && p.None?)
            && (r.outcome == IdNotPositive <==> books != [] && p.Some? && p.value <= 0)
            && (r.outcome == InvalidStatus <==>
                  books != [] && p.Some? && p.value > 0 && !ValidStatus(newStatus))
            && (r.outcome == NotFound <==>
                  books != [] && p.Some? && p.value > 0 && ValidStatus(newStatus) && FindById(books, p.value).None?)
            && (!r.outcome.StatusChanged? ==> r.books == books)
  {
  }

  /**
   A successful status change sets the status of the first book with the id
   to the new, valid status; its other fields and every other book stay the same.
   */
  lemma ChangeStatusTouchesOneBook(books: seq<Book>, idText: string, newStatus: string)
    ensures var r := ChangeStatusStep(books, idText, newStatus);
            r.outcome.StatusChanged? ==>
              && ValidStatus(newStatus)
              && ParseInt(idText) == Some(r.outcome.id)
              && FindById(books, r.outcome.id).Some?
              && var i := IndexOfId(books, r.outcome.id).value;
                 && r.books[i] == books[i].(status := newStatus)
                 && forall k :: 0 <= k < |books| && k != i ==> r.books[k] == books[k]
  {
    var r := ChangeStatusStep(books, idText, newStatus);
    if r.outcome.StatusChanged? {
      var p := ParseInt(idText);
      assert books != [] && p.Some? && p.value > 0 && ValidStatus(newStatus);
      var i := IndexOfId(books, p.value).value;
      assert r == Step(StatusChanged(p.value), books[i := books[i].(status := newStatus)]);
    }
  }

  /**
   When every check passes, the status of the first book with the id is set
   to the new status in place, and that is reported.
   */
  lemma ChangeStatusSucceeds(books: seq<Book>, idText: string, newStatus: string, id: int, i: nat)
    requires ParseInt(idText) == Some(id) && id > 0 && ValidStatus(newStatus)
    requires IndexOfId(books, id) == Some(i)
    ensures ChangeStatusStep(books, idText, newStatus)
            == Step(StatusChanged(id), books[i := books[i].(status := newStatus)])
  {
  }

  /** Setting the same status twice is the same as setting it once. */
  lemma ChangeStatusIdempotent(books: seq<Book>, idText: string, newStatus: string)
    ensures var once := ChangeStatusStep(books, idText, newStatus);
            ChangeStatusStep(once.books, idText, newStatus).books == once.books
  {
    var once := ChangeStatusStep(books, idText, newStatus);
    if once.outcome.StatusChanged? {
      var p := ParseInt(idText);
      assert books != [] && p.Some? && p.value > 0 && ValidStatus(newStatus);
      var id := p.value;
      var i := IndexOfId(books, id).value;
      var t := books[i := books[i].(status := newStatus)];
      assert once.books == t;
      assert forall k :: 0 <= k < |books| ==> t[k].id == books[k].id;
      assert IndexOfId(t, id) == Some(i);
      assert t[i := t[i].(status := newStatus)] == t;
    }
  }

  /** Changing a status keeps the catalogue invariant. */
  lemma ChangeStatusPreservesValid(books: seq<Book>, idText: string, newStatus: string)
    requires Valid(books)
    ensures Valid(ChangeStatusStep(books, idText, newStatus).books)
  {
    var r := ChangeStatusStep(books, idText, newStatus);
    if r.outcome.StatusChanged? {
      var p := ParseInt(idText);
      assert books != [] && p.Some? && p.value > 0 && ValidStatus(newStatus);
      forall k | 0 <= k < |r.books| ensures WellFormed(r.books[k]) {
        assert r.books[k] == books[k].(status := r.books[k].status);
      }
      forall i, j | 0 <= i < j < |r.books| ensures r.books[i].id != r.books[j].id && !SameEntry(r.books[i], r.books[j]) {
        assert r.books[i] == books[i].(status := r.books[i].status);
        assert r.books[j] == books[j].(status := r.books[j].status);
      }
    }
  }

  // ------------------------------------------------------ find_book_by_id

  /** With unique ids the lookup returns the one book that has the id. */
  lemma FindByIdUnique(books: seq<Book>, k: nat)
    requires UniqueIds(books) && k < |books|
    ensures FindById(books, books[k].id) == Some(books[k])
  {
    var i := IndexOfId(books, books[k].id).value;
    assert i == k by {
      if i < k { assert books[i].id == books[k].id; }
    }
  }

  // --------------------------------------------------------- search_books

  /** `str(getattr(book, key))` is the text of `to_dict()[key]` for each of the five fields. */
  function Render(v: Value): (s: string) {
    match v
    case Int(i) => IntToString(i)
    case Str(s) => s
  }

  lemma FieldTextRendersRecord(b: Book, key: string)
    ensures key in FieldNames ==> FieldText(b, key) == Render(ToDict(b)[key])
    ensures key !in FieldNames ==> FieldText(b, key) == ""
  {
  }

  /** Search keeps catalogue order: the result for a concatenation is the concatenation of the results. */
  lemma {:induction false} SearchConcat(a: seq<Book>, b: seq<Book>, key: string, value: string)
    ensures Search(a + b, key, value) == Search(a, key, value) + Search(b, key, value)
  {
    if a == [] {
      assert a + b == b;
    } else {
      assert (a + b)[0] == a[0];
      assert (a + b)[1..] == a[1..] + b;
      SearchConcat(a[1..], b, key, value);
    }
  }

  /** A single book is in the result exactly when it matches. */
  lemma SearchSingle(b: Book, key: string, value: string)
    ensures Search([b], key, value) == if Matches(b, key, value) then [b] else []
  {
    assert [b][1..] == [];
  }

  /** Search is case-insensitive in the value: lowering it first changes nothing. */
  lemma {:induction false} SearchIgnoresCase(books: seq<Book>, key: string, value: string)
    ensures Search(books, key, value) == Search(books, key, Lower(value))
  {
    LowerIdempotent(value);
    if books != [] {
      SearchIgnoresCase(books[1..], key, value);
    }
  }

  /** An unknown key compares against "", so it matches every book for an empty value and none otherwise. */
  lemma {:induction false} SearchUnknownKey(books: seq<Book>, key: string, value: string)
    requires key !in FieldNames
    ensures Search(books, key, value) == if value == [] then books else []
  {
    ContainsEmpty(Lower(value), []);
    if books != [] {
      SearchUnknownKey(books[1..], key, value);
    }
  }

  /** An empty value matches every book, whatever the key. */
  lemma {:induction false} SearchEmptyValue(books: seq<Book>, key: string)
    ensures Search(books, key, "") == books
  {
    ContainsEmpty([], []);
    if books != [] {
      ContainsEmpty([], Lower(FieldText(books[0], key)));
      SearchEmptyValue(books[1..], key);
    }
  }
}
