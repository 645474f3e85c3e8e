/**
 * The `Book` record of the catalog (the columns of the `book` table in
 * models.py) and the typed access to its fields.
 */
module Books {
  import opened Wrappers

  /** One row of the `book` table; `genre` and `year` are nullable columns. */
  datatype Book = Book(id: int, title: string, author: string, genre: Option<string>, year: Option<int>)

  /** A scalar as it appears in a JSON payload or as a filter value. */
  datatype Value = VNull | VInt(i: int) | VStr(s: string)

  /** The attributes of a `Book` that a criterion may name. */
  datatype Field = Id | Title | Author | Genre | Year

  /** The attribute `f` of `b`, as the value Python's `getattr` would yield. */
  function FieldValue(b: Book, f: Field): (v: Value)
    ensures v.VNull? <==> (f == Genre && b.genre.None?) || (f == Year && b.year.None?)
  {
    match f
    case Id => VInt(b.id)
    case Title => VStr(b.title)
    case Author => VStr(b.author)
    case Genre => if b.genre.Some? then VStr(b.genre.value) else VNull
    case Year => if b.year.Some? then VInt(b.year.value) else VNull
  }

  /** Every book has a year. */
  predicate AllDated(books: seq<Book>) {
    forall i :: 0 <= i < |books| ==> books[i].year.Some?
  }

  /**
   * Python's `sorted` and `reduce` compare years only when there are at
   * least two books; a comparison involving a null year raises.
   */
  predicate Comparable(books: seq<Book>) {
    |books| <= 1 || AllDated(books)
  }

  /** The sort key of a book: its year (0 stands for a null year, which is never compared). */
  function Key(b: Book): int {
    if b.year.Some? then b.year.value else 0
  }

  /** The attribute name of a field, as a criterion or a payload spells it. */
  function FieldName(f: Field): string {
    match f
    case Id => "id"
    case Title => "title"
    case Author => "author"
    case Genre => "genre"
    case Year => "year"
  }

  /** The field an attribute name denotes; any other name is unknown. */
  function ParseField(name: string): (f: Option<Field>)
    ensures f.Some? ==> FieldName(f.value) == name
  {
    if name == "id" then Some(Id)
    else if name == "title" then Some(Title)
    else if name == "author" then Some(Author)
    else if name == "genre" then Some(Genre)
    else if name == "year" then Some(Year)
    else None
  }

  /** Every field is found again from its name. */
  lemma ParseFieldName(f: Field)
    ensures ParseField(FieldName(f)) == Some(f)
  {
  }
}
