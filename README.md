# Library catalogue

This project models the in-memory book catalogue of a small console library manager (`main.py`).

- A `Book` has an id, a title, an author, a year and a status. The status is "в наличии" (available) or "выдана" (checked out).
- A book converts to and from the mapping stored in the JSON document.
- `Library` keeps an ordered list of books and offers these operations:
  - `add_book` validates its input, rejects a duplicate, gives the new book the next id, appends it and saves.
  - `remove_book` validates the id, looks it up, asks for confirmation, then removes the book and saves.
  - `change_status` validates the id and the status, then overwrites the found book's status and saves.
  - `find_book_by_id` returns the first match.
  - `search_books` is a case-insensitive substring filter over one field.

The project has these modules:

- `Wrappers` holds `Option`.
- `Text` holds the string primitives main.py takes from Python: `str.strip`, `str.lower`, `int()`, `str()` of an integer, and the `in` substring test.
- `Books` holds the record and its mapping conversion.
- `Catalogue` holds the queries, the catalogue invariant `Valid`, and one pure step function per mutating operation. A step function gives the reported `Outcome` with the list the operation leaves behind.
- `CatalogueProperties` holds the lemmas about those functions.
- `LibraryState` holds `class Library`. Its field `books` is updated in place by methods proved to follow the step functions. Its ghost field `saved` is the list `save_books` last wrote.
- `Scenarios` replays the concrete runs of `test_main.py` and an add / duplicate / lend / remove walk-through.

Each printed message becomes an `Outcome` value. Ids and years arrive as text, as the console menu passes them. The tests pass integer ids; `Text.ParseIntToString` covers those, because rendering an integer and parsing it back gives the same integer. The reply to the removal prompt is a parameter holding the raw answer. The removal is confirmed when the stripped, lowered answer is "да" ("yes").

## Model

| member | source | states |
|---|---|---|
| Text.Strip | main.py:110 | the result is a slice of the input with only white space outside it, and neither of its ends is white space |
| Text.BlankIffAllSpace | main.py:110-115 | `not s.strip()` holds exactly when every character of `s` is white space |
| Text.StripOfTrimmed | main.py:156 | a string with no white space at either end is its own strip |
| Text.IsBlank | main.py:110-115 | `not s.strip()`: stripping leaves nothing; `Text.BlankIffAllSpace` states it as "every character is white space" |
| Text.LowerChar | main.py:185 | an ASCII capital moves up by 32, a Cyrillic capital U+0410 to U+042F by 0x20 and U+0400 to U+040F by 0x50; every other character is unchanged |
| Text.Lower | main.py:185 | lowering keeps the length and lowers each character on its own |
| Text.LowerIdempotent | main.py:185 | lowering twice is lowering once |
| Text.ContainsIff | main.py:185 | the substring test holds exactly when the needle occurs at some position of the haystack |
| Text.ContainsEmpty | main.py:185 | the empty string occurs in every string, and only the empty string occurs in "" |
| Text.Contains | main.py:185 | Python's `needle in haystack`: the needle is a prefix of the haystack or occurs in its tail; `Text.ContainsIff` characterises it |
| Text.DigitsValue | main.py:117 | a digit string denotes a natural number |
| Text.ParseInt | main.py:117 | `int()` succeeds only on text that holds a digit |
| Text.NatToString | main.py:185 | a natural renders as a digit string that denotes it, with no leading zero unless the number is 0 |
| Text.IntToString | main.py:185 | an integer renders as non-empty text with no surrounding white space |
| Text.ParseIntToString | main.py:146 | `int(str(n)) == n` for every integer `n` |
| Books.NewBook | main.py:14-28 | a new book holds the given fields, and its status defaults to "available" |
| Books.ToDict | main.py:36-42 | the mapping has exactly the five field names, each holding that field's value |
| Books.FromDict | main.py:53 | a book is rebuilt exactly when all five keys are present with values of the right kind |
| Books.FromToDict | main.py:36-53 | `from_dict(to_dict(b))` gives `b` back |
| Books.ToFromDict | main.py:36-53 | a mapping that converts to a book agrees with that book's `to_dict` on the five keys, and equals it when it has no other key |
| Catalogue.MaxId | main.py:130 | `max(ids, default=0)`: 0 for no books, otherwise at least every id and equal to one of them |
| Catalogue.HasEntry | main.py:125-128 | the duplicate scan: some book has exactly this title, author and year, compared case-sensitively and untrimmed |
| Catalogue.Confirms | main.py:156-157 | the removal is confirmed when the stripped, lowered answer is "да" |
| Catalogue.IndexOfId | main.py:174 | the position of the first book with the id, or none when no book has it |
| Catalogue.FindById | main.py:174 | none exactly when no book has the id; otherwise the first book in order with that id |
| Catalogue.FirstIndexOf | main.py:160 | the position of the first element equal to the argument, which is present |
| Catalogue.RemoveFirst | main.py:160 | `list.remove` drops the first element equal to its argument and keeps the rest in order |
| Catalogue.Search | main.py:185 | the result is no longer than the catalogue and holds exactly the books whose field matches |
| Catalogue.FieldText | main.py:185 | `str(getattr(book, key, ""))`: the text of the named field, the integer fields rendered by `str()`, and "" for any other key |
| Catalogue.Matches | main.py:185 | the filter condition `value.lower() in str(getattr(book, key, "")).lower()` |
| Catalogue.Valid | main.py:101-227 | the `books` list invariant: every book well formed (positive id, non-blank title and author, year in [0, 2024], a known status), no id twice, no (title, author, year) twice |
| Catalogue.AddStep | main.py:110-134 | only a successful add changes the list, and it appends exactly one book after the unchanged old list |
| Catalogue.RemoveStep | main.py:142-164 | only a successful removal changes the list, and it shortens the list by one |
| Catalogue.ChangeStatusStep | main.py:204-227 | the list keeps its length, and no field other than a status changes; only a successful change alters it |
| CatalogueProperties.AddRejections | main.py:110-128 | each rejection (blank title, blank author, year not an integer, year outside [0, 2024], duplicate) is reported exactly when it is the first check that fails, and the list is unchanged |
| CatalogueProperties.AddSucceeds | main.py:130-133 | an add succeeds exactly when every check passes; the new book gets id max+1, which exceeds every existing id, and status "available", and is appended |
| CatalogueProperties.AppendValid | main.py:130-132 | appending a well-formed book with a larger id and a new entry keeps the invariant |
| CatalogueProperties.AddKeepsIdsUnique | main.py:130-132 | on any list with distinct positive ids, adding keeps the ids distinct and positive |
| CatalogueProperties.AddKeeps | main.py:110-133 | adding keeps the full invariant, and keeps distinct positive ids distinct and positive on any list |
| CatalogueProperties.AddPreservesValid | main.py:110-133 | adding keeps ids unique and positive, entries distinct and books well formed |
| CatalogueProperties.AddThenFind | main.py:130-132 | after an add, looking up the new id returns the new book |
| CatalogueProperties.AddTwiceIsDuplicate | main.py:125-128 | adding the same title, author and year again is a duplicate and changes nothing |
| CatalogueProperties.ConfirmsYes | main.py:156-157 | the answer "да" confirms a removal |
| CatalogueProperties.ConfirmsPaddedCapitals | main.py:156-157 | a padded, capitalised " ДА\n" confirms too, because the answer is stripped and lowered |
| CatalogueProperties.NoDeclines | main.py:156-159 | the answer "нет" cancels the removal |
| CatalogueProperties.AddThenRemove | main.py:130-164 | removing the book just added, with confirmation, restores the previous list |
| CatalogueProperties.IdReusedAfterRemovingNewest | main.py:130 | after the newest book is removed, the next add reuses that book's id |
| CatalogueProperties.RemoveRejections | main.py:142-159 | each rejection (empty library, id not an integer, id not positive, id not found, cancelled) is reported exactly when it is the first check that fails, and the list is unchanged |
| CatalogueProperties.RemovePresent | main.py:154-162 | a confirmed removal of a present id drops exactly the first book with that id and keeps the others in order |
| CatalogueProperties.RemoveMakesAbsent | main.py:160 | with unique ids, the removed id can no longer be found |
| CatalogueProperties.RemovePreservesValid | main.py:142-162 | removing keeps the catalogue invariant |
| CatalogueProperties.ChangeStatusRejections | main.py:204-227 | each rejection (empty library, id not an integer, id not positive, invalid status, id not found) is reported exactly when it is the first check that fails, and no book changes |
| CatalogueProperties.ChangeStatusTouchesOneBook | main.py:216-224 | a successful change sets the found book's status to the new valid status and leaves its other fields and every other book as they were |
| CatalogueProperties.ChangeStatusSucceeds | main.py:204-225 | when the library is not empty, the id parses to a positive integer, the status is valid and a book has the id, the first such book gets the new status, the change is reported, and nothing else changes |
| CatalogueProperties.ChangeStatusIdempotent | main.py:221-224 | setting the same status twice gives the same list as setting it once |
| CatalogueProperties.ChangeStatusPreservesValid | main.py:204-224 | changing a status keeps the catalogue invariant |
| CatalogueProperties.FindByIdUnique | main.py:174 | with unique ids, looking up a book's id returns that book |
| CatalogueProperties.FieldTextRendersRecord | main.py:185 | the text searched for each of the five keys is the rendering of that key's value in `to_dict`; any other key gives "" |
| CatalogueProperties.SearchConcat | main.py:185 | search keeps catalogue order: searching a concatenation gives the concatenation of the results |
| CatalogueProperties.SearchSingle | main.py:185 | a single book is in the result exactly when it matches |
| CatalogueProperties.SearchIgnoresCase | main.py:185 | lowering the value first does not change the result |
| CatalogueProperties.SearchUnknownKey | main.py:185 | an unknown key matches every book for an empty value and no book otherwise |
| CatalogueProperties.SearchEmptyValue | main.py:185 | an empty value matches every book for any key |
| LibraryState.Library.constructor | main.py:63-71 | the library starts with the loaded list, which is also the saved list |
| LibraryState.Library.AddBook | main.py:101-134 | the outcome and new list are those of `AddStep` on the old list; the list is saved only when a book is added; the invariant is kept, and distinct positive ids stay distinct and positive on any list |
| LibraryState.Library.RemoveBook | main.py:136-164 | the outcome and new list are those of `RemoveStep` on the old list; the list is saved only on removal; the invariant is kept |
| LibraryState.Library.ChangeStatus | main.py:197-227 | the outcome and new list are those of `ChangeStatusStep` on the old list; the list is saved only on a change; the invariant is kept |
| Scenarios.TestAddBook | test_main.py:15-22 | adding to an empty library gives one book with id 1, the given fields, year 2020 and status "available" |
| Scenarios.TestRemoveBook | test_main.py:24-29 | removing that book's id empties the library |
| Scenarios.TestRemoveNonExistent | test_main.py:31-35 | removing id 9999 reports not found and keeps the book |
| Scenarios.TestChangeStatus | test_main.py:37-42 | lending the book sets its status to "выдана" |
| Scenarios.TestSearchByAuthor | test_main.py:44-49 | searching the author's name finds the book |
| Scenarios.TestSearchByTitle | test_main.py:51-56 | searching the title finds the book |
| Scenarios.TestSearchByYear | test_main.py:58-63 | searching the year "2020" finds the book |
| Scenarios.TestInvalidStatus | test_main.py:65-70 | an unknown status is rejected and the status stays "available" |
| Scenarios.TestInvalidYear | test_main.py:77-80 | the year "invalid_year" is rejected and nothing is added |
| Scenarios.TestDuplicateBook | test_main.py:82-86 | the same add a second time is a duplicate and leaves one book |
| Scenarios.DuneAdded | main.py:130-134 | adding "Dune" to an empty library gives it id 1 and status "available" |
| Scenarios.DuneWalkThrough | main.py:101-164 | the first add gives id 1; a duplicate add, a lend and a confirmed remove of that book behave as described; a second remove on the now empty library reports an empty library |

## Left out

- File persistence is not modelled: `load_books`, `save_books`, the JSON encoding and the recovery prompt for a corrupt document. The loaded list is the constructor's parameter, and each save is the ghost assignment `saved := books`.
- Console interaction is not modelled: `input()`, every `print`, `display_books` and the `main` menu loop. Messages become `Outcome` values, and the removal prompt's reply becomes the `answer` parameter.
- Text.ParseInt: accepts surrounding white space, one sign and ASCII digits. It does not accept the underscores or non-ASCII digits that Python's `int()` also takes. It also has no limit on the number of digits. CPython (3.11 and later, and the 3.10.7, 3.9.14, 3.8.14 and 3.7.14 releases) by default refuses to convert a string of more than 4300 digits, leading zeros included, and raises `ValueError`. Without leading zeros, such a value is over 2024 or matches no id, so the model reports `YearOutOfRange` or `NotFound` and the list is unchanged. With leading zeros and a value in range, the model adds, removes or updates a book where the program rejects the input as not a number. The model also skips U+001C to U+001F around the digits, as `strip()` does, but `int()` does not skip them. So a year or id padded with them adds, removes or updates a book where main.py rejects the input as not a number.
- Text.Lower: lowers only the ASCII capitals and the Cyrillic capitals U+0400 to U+042F. Every other character is left as it is, unlike Python's full Unicode `str.lower`. That includes capitals of the supported scripts outside those ranges, such as Latin-1 `É` and the Ukrainian `Ґ` (U+0490).
- Catalogue.FieldText: a search key that names a method or a dunder attribute of the Python object (e.g. `to_dict`) is treated like an unknown key and gives "". In main.py, `getattr` would find something there and render it.
- Books.FromDict: the model's book has typed fields, so a value of the wrong kind gives `None`. The program would build a book holding that value.
- Identity and aliasing are not modelled. Books are values: `find_book_by_id` returns a copy, and `list.remove` compares by value. The program compares objects with `==`, which on `Book` is identity; that coincides with value equality as long as no two books in the list are equal.
- CatalogueProperties.AddThenRemove: requires every existing id to be positive. Otherwise the new id `max + 1` could be 0 or less, and `remove_book` rejects it before any lookup.
- CatalogueProperties.NoDeclines: covers one declining answer, "нет". That any other stripped, lowered answer declines follows from `Catalogue.Confirms` directly.

## Notes

- The `Book` docstring (main.py:8) calls the id unique. The code keeps ids unique among the books present, but it computes max+1 over the ids still present, so once the newest book is removed its id goes to the next add; `CatalogueProperties.IdReusedAfterRemovingNewest` proves this.
- After the last book is removed, a further removal reports an empty library, not "not found", because main.py:142 checks for an empty list before the lookup; `Scenarios.DuneWalkThrough` states this.
