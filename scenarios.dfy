/**
 The concrete runs exercised by the repository's tests (test_main.py) and an
 add / duplicate / lend / remove walk-through, replayed on the
 step functions of module Catalogue.
 */
module Scenarios {
  import opened Wrappers
  import opened Text
  import opened Books
  import opened Catalogue
  import opened CatalogueProperties

  // ------------------------------------------------------- concrete inputs

  /** A string that starts with a visible character is not blank. */
  lemma VisibleFirstNotBlank(s: string)
    requires s != [] && !IsSpace(s[0])
    ensures !IsBlank(s)
  {
    BlankIffAllSpace(s);
  }

  lemma RenderYears()
    ensures IntToString(2020) == "2020" && IntToString(1965) == "1965"
  {
    assert NatToString(2) == "2";
    assert NatToString(1) == "1";
  }

  lemma ParseYears()
    ensures ParseInt("2020") == Some(2020) && ParseInt("1965") == Some(1965)
  {
    RenderYears();
    ParseIntToString(2020);
    ParseIntToString(1965);
  }

  lemma ParseIds()
    ensures ParseInt("1") == Some(1) && ParseInt("9999") == Some(9999)
  {
    assert IntToString(9999) == "9999" by {
      assert NatToString(99) == "99";
      assert NatToString(999) == "999";
    }
    ParseIntToString(1);
    ParseIntToString(9999);
  }

  /** A string contains itself, whatever its case. */
  lemma ContainsSelf(s: string)
    ensures Contains(Lower(s), Lower(s))
  {
    var t := Lower(s);
    assert t[..|t|] == t;
  }

  // --------------------------------------------------------- test_main.py

  /** test_add_book: the first book of an empty library gets id 1 and the status "available". */
  lemma TestAddBook()
    ensures AddStep([], "Book Title", "Author Name", "2020")
            == Step(Added(1), [Book(1, "Book Title", "Author Name", 2020, Available)])
  {
    VisibleFirstNotBlank("Book Title");
    VisibleFirstNotBlank("Author Name");
    ParseYears();
  }

  /** test_duplicate_book: the same add a second time leaves one book. */
  lemma TestDuplicateBook()
    ensures var lib := [Book(1, "Book Title", "Author Name", 2020, Available)];
            AddStep(lib, "Book Title", "Author Name", "2020") == Step(DuplicateBook, lib)
  {
    TestAddBook();
    AddTwiceIsDuplicate([], "Book Title", "Author Name", "2020");
  }

  /** test_invalid_year_in_add_book: a year that is not a number adds nothing. */
  lemma TestInvalidYear()
    ensures AddStep([], "Book Title", "Author Name", "invalid_year") == Step(YearNotInteger, [])
  {
    VisibleFirstNotBlank("Book Title");
    VisibleFirstNotBlank("Author Name");
    var t := Strip("invalid_year");
    assert t != [] ==> t[0] in "invalid_year";
  }

  /** test_remove_book: removing the only book's id, confirmed, empties the library. */
  lemma TestRemoveBook()
    ensures var lib := [Book(1, "Book Title", "Author Name", 2020, Available)];
            RemoveStep(lib, "1", "да") == Step(Removed(1), [])
  {
    TestAddBook();
    AddThenRemove([], "Book Title", "Author Name", "2020");
  }

  /** test_remove_non_existent_book: an unknown id removes nothing. */
  lemma TestRemoveNonExistent()
    ensures var lib := [Book(1, "Book Title", "Author Name", 2020, Available)];
            RemoveStep(lib, "9999", "да") == Step(NotFound, lib)
  {
    ParseIds();
  }

  /** test_change_status: lending the book sets its status to "checked out". */
  lemma TestChangeStatus()
    ensures var lib := [Book(1, "Book Title", "Author Name", 2020, Available)];
            ChangeStatusStep(lib, "1", CheckedOut)
            == Step(StatusChanged(1), [Book(1, "Book Title", "Author Name", 2020, CheckedOut)])
  {
    ParseIds();
  }

  /** test_invalid_status_change: an unknown status changes nothing. */
  lemma TestInvalidStatus()
    ensures var lib := [Book(1, "Book Title", "Author Name", 2020, Available)];
            ChangeStatusStep(lib, "1", "invalid_status") == Step(InvalidStatus, lib)
  {
    ParseIds();
  }

  /** test_search_books_by_author: searching the author's name finds the book. */
  lemma TestSearchByAuthor()
    ensures var lib := [Book(1, "Book Title", "Author Name", 2020, Available)];
            Search(lib, "author", "Author Name") == lib
  {
    var lib := [Book(1, "Book Title", "Author Name", 2020, Available)];
    assert lib[1..] == [];
    ContainsSelf("Author Name");
  }

  /** test_search_books_by_title: searching the title finds the book. */
  lemma TestSearchByTitle()
    ensures var lib := [Book(1, "Book Title", "Author Name", 2020, Available)];
            Search(lib, "title", "Book Title") == lib
  {
    var lib := [Book(1, "Book Title", "Author Name", 2020, Available)];
    assert lib[1..] == [];
    ContainsSelf("Book Title");
  }

  /** test_search_books_by_year: the year is rendered as text, so "2020" finds the book. */
  lemma TestSearchByYear()
    ensures var lib := [Book(1, "Book Title", "Author Name", 2020, Available)];
            Search(lib, "year", "2020") == lib
  {
    var lib := [Book(1, "Book Title", "Author Name", 2020, Available)];
    assert lib[1..] == [];
    RenderYears();
    ContainsSelf("2020");
  }

  // ------------------------------------------------------- walk-through

  lemma DuneAdded()
    ensures AddStep([], "Dune", "Herbert", "1965") == Step(Added(1), [Book(1, "Dune", "Herbert", 1965, Available)])
  {
    VisibleFirstNotBlank("Dune");
    VisibleFirstNotBlank("Herbert");
    ParseYears();
  }

  /**
   An add / duplicate / lend / remove walk-through: add "Dune" (id 1), add it
   again (duplicate), lend it, remove it with confirmation, then try to remove
   id 1 once more; the list is then empty, so the last call reports an empty library before any lookup.
   */
  lemma DuneWalkThrough()
    ensures var one := [Book(1, "Dune", "Herbert", 1965, Available)];
            var lent := [Book(1, "Dune", "Herbert", 1965, CheckedOut)];
            && AddStep([], "Dune", "Herbert", "1965") == Step(Added(1), one)
            && AddStep(one, "Dune", "Herbert", "1965") == Step(DuplicateBook, one)
            && ChangeStatusStep(one, "1", CheckedOut) == Step(StatusChanged(1), lent)
            && RemoveStep(lent, "1", "да") == Step(Removed(1), [])
            && RemoveStep([], "1", "да") == Step(EmptyLibrary, [])
  {
    DuneAdded();
    AddTwiceIsDuplicate([], "Dune", "Herbert", "1965");
    ParseIds();
    ConfirmsYes();
    var lent := [Book(1, "Dune", "Herbert", 1965, CheckedOut)];
    assert IndexOfId(lent, 1) == Some(0);
    RemovePresent(lent, "1", "да", 1, 0);
  }
}
