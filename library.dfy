/**
 The `Library` object of main.py: the list `books` that its methods update in
 place. Each method reports an `Outcome` instead of printing a message, and
 is proved to follow the step function of module Catalogue for its operation.
 */
module LibraryState {
  import opened Wrappers
  import opened Text
  import opened Books
  import opened Catalogue
  import CatalogueProperties

  class Library {
    /** `self.books`: the catalogue in insertion order. */
    var books: seq<Book>
    /** The list `save_books` last wrote to the storage document. */
    ghost var saved: seq<Book>

    /** `Library(storage_file)`, with `loaded` the list `load_books` read from the document. */
    constructor (loaded: seq<Book>)
      ensures books == loaded && saved == loaded
    {
      books := loaded;
      saved := loaded;
    }

    /**
     `add_book(title, author, year)`: validate, reject a duplicate, append the book
     with the next id and save. A rejected add neither changes the list nor saves.
     */
    method AddBook(title: string, author: string, yearText: string) returns (outcome: Outcome)
      modifies this
      ensures Step(outcome, books) == AddStep(old(books), title, author, yearText)
      ensures saved == if outcome.Added? then books else old(saved)
      ensures old(saved) == old(books) ==> saved == books
      ensures Valid(old(books)) ==> Valid(books)
      ensures UniqueIds(old(books)) && PositiveIds(old(books)) ==> UniqueIds(books) && PositiveIds(books)
    {
      if IsBlank(title) {
        return BlankTitle;
      }
      if IsBlank(author) {
        return BlankAuthor;
      }
      var parsed := ParseInt(yearText);
      if parsed.None? {
        return YearNotInteger;
      }
      var year := parsed.value;
      if year < 0 || year > MaxYear {
        return YearOutOfRange;
      }
      var current := books;
      var i := 0;
      while i < |current|
        invariant 0 <= i <= |current|
        invariant forall k :: 0 <= k < i ==> !IsEntry(current[k], title, author, year)
      {
        var book := current[i];
        if IsEntry(book, title, author, year) {
          assert HasEntry(current, title, author, year);
          return DuplicateBook;
        }
        i := i + 1;
      }
      CatalogueProperties.AddKeeps(current, title, author, yearText);
      var newId := MaxId(current) + 1;
      books := current + [NewBook(newId, title, author, year)];
      saved := books;
      outcome := Added(newId);
    }

    /**
     `remove_book(book_id)`, with `answer` the reply to the confirmation prompt:
     a confirmed removal of a present id drops that book and saves; every other
     path leaves the list unsaved and unchanged.
     */
    method RemoveBook(idText: string, answer: string) returns (outcome: Outcome)
      modifies this
      ensures Step(outcome, books) == RemoveStep(old(books), idText, answer)
      ensures saved == if outcome.Removed? then books else old(saved)
      ensures old(saved) == old(books) ==> saved == books
      ensures Valid(old(books)) ==> Valid(books)
    {
      if Valid(books) {
        CatalogueProperties.RemovePreservesValid(books, idText, answer);
      }
      if books == [] {
        return EmptyLibrary;
      }
      var parsed := ParseInt(idText);
      if parsed.None? {
        return IdNotInteger;
      }
      var id := parsed.value;
      if id <= 0 {
        return IdNotPositive;
      }
      var found := FindById(books, id);
      if found.None? {
        return NotFound;
      }
      if !Confirms(answer) {
        return RemovalCancelled;
      }
      books := RemoveFirst(books, found.value);
      saved := books;
      outcome := Removed(id);
    }

    /**
     `change_status(book_id, new_status)`: the status of the found book is
     overwritten in place and the list saved; a rejected change saves nothing.
     */
    method ChangeStatus(idText: string, newStatus: string) returns (outcome: Outcome)
      modifies this
      ensures Step(outcome, books) == ChangeStatusStep(old(books), idText, newStatus)
      ensures saved == if outcome.StatusChanged? then books else old(saved)
      ensures old(saved) == old(books) ==> saved == books
      ensures Valid(old(books)) ==> Valid(books)
    {
      if Valid(books) {
        CatalogueProperties.ChangeStatusPreservesValid(books, idText, newStatus);
      }
      if books == [] {
        return EmptyLibrary;
      }
      var parsed := ParseInt(idText);
      if parsed.None? {
        return IdNotInteger;
      }
      var id := parsed.value;
      if id <= 0 {
        return IdNotPositive;
      }
      if !ValidStatus(newStatus) {
        return InvalidStatus;
      }
      var index := IndexOfId(books, id);
      if index.None? {
        return NotFound;
      }
      var i := index.value;
      books := books[i := books[i].(status := newStatus)];
      saved := books;
      outcome := StatusChanged(id);
    }
  }
}
