/**
 One catalogue entry and its conversion to and from the plain mapping that is
 written to the storage document (`Book.to_dict` / `Book.from_dict`, main.py).
 */
module Books {
  import opened Wrappers

  /** The two statuses the catalogue knows: "available" and "checked out". */
  const Available: string := "в наличии"
  const CheckedOut: string := "выдана"

  predicate ValidStatus(status: string) {
    status == Available || status == CheckedOut
  }

  datatype Book = Book(id: int, title: string, author: string, year: int, status: string)

  /** `Book(book_id, title, author, year)`: the constructor's status defaults to "available". */
  function NewBook(id: int, title: string, author: string, year: int): (b: Book)
    ensures b.status == Available && ValidStatus(b.status)
    ensures b.id == id && b.title == title && b.author == author && b.year == year
  {
    Book(id, title, author, year, Available)
  }

  /** A value stored under one key of a record: the document holds integers and strings. */
  datatype Value = Int(i: int) | Str(s: string)

  type Record = map<string, Value>

  const FieldNames: set<string> := {"id", "title", "author", "year", "status"}

  /** `to_dict`: the five fields under their own names, values copied verbatim. */
  function ToDict(b: Book): (d: Record)
    ensures d.Keys == FieldNames
    ensures d["id"] == Int(b.id) && d["year"] == Int(b.year)
    ensures d["title"] == Str(b.title) && d["author"] == Str(b.author) && d["status"] == Str(b.status)
  {
    map["id" := Int(b.id), "title" := Str(b.title), "author" := Str(b.author),
        "year" := Int(b.year), "status" := Str(b.status)]
  }

  /**
   `from_dict`: `None` when one of the five keys is missing (the `KeyError`
   main.py raises) or holds a value of the other kind; other keys are ignored.
   */
  function FromDict(d: Record): (r: Option<Book>)
    ensures r.Some? <==> FieldNames <= d.Keys && d["id"].Int? && d["year"].Int?
                         && d["title"].Str? && d["author"].Str? && d["status"].Str?
  {
    if "id" in d && "title" in d && "author" in d && "year" in d && "status" in d then
      match (d["id"], d["title"], d["author"], d["year"], d["status"])
      case (Int(id), Str(title), Str(author), Int(year), Str(status)) =>
        Some(Book(id, title, author, year, status))
      case _ => None
    else None
  }

  /** `from_dict(to_dict(b))` rebuilds `b` field for field. */
  lemma FromToDict(b: Book)
    ensures FromDict(ToDict(b)) == Some(b)
  {
  }

  /** A record that converts to a book holds that book's fields, so `to_dict` gives it back on the five keys. */
  lemma ToFromDict(d: Record, b: Book)
    requires FromDict(d) == Some(b)
    ensures forall k :: k in FieldNames ==> k in d && ToDict(b)[k] == d[k]
    ensures d.Keys == FieldNames ==> ToDict(b) == d
  {
    var e := ToDict(b);
    forall k | k in FieldNames ensures k in d && e[k] == d[k] {
    }
    if d.Keys == FieldNames {
      assert e.Keys == d.Keys;
    }
  }
}
