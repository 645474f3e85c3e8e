/**
 * `create_filter(criteria)`: a closure comparing one attribute of a book
 * with a value, and the comprehension that applies it to a list of books.
 */
module Filters {
  import opened Wrappers
  import opened Books
  import opened Sequences

  /** `{"field": ..., "value": ...}` with the field name already resolved. */
  datatype Criterion = Criterion(field: Field, value: Value)

  /**
   * The criterion a `{"field": name, "value": value}` dictionary denotes;
   * a name that is not a column is unknown (Python's `getattr` would raise
   * once a book is tested).
   */
  function ResolveCriterion(name: string, value: Value): (c: Option<Criterion>)
    ensures c.Some? <==> ParseField(name).Some?
    ensures c.Some? ==> FieldName(c.value.field) == name && c.value.value == value
  {
    match ParseField(name)
    case Some(f) => Some(Criterion(f, value))
    case None => None
  }

  /** `filter_books(book)`: `getattr(book, field) == value`. */
  function CreateFilter(c: Criterion): (Book -> bool) {
    (b: Book) => FieldValue(b, c.field) == c.value
  }

  /**
   * `[book for book in books if filter_func(book)]`: exactly the matching
   * books, every copy of each, in input order.
   */
  function FilterBooks(books: seq<Book>, c: Criterion): (r: seq<Book>)
    ensures |r| <= |books|
    ensures forall i :: 0 <= i < |r| ==> FieldValue(r[i], c.field) == c.value
    ensures forall b :: multiset(r)[b] == if FieldValue(b, c.field) == c.value then multiset(books)[b] else 0
    ensures Subsequence(r, books)
  {
    KeepCounts(CreateFilter(c), books);
    KeepSubsequence(CreateFilter(c), books);
    Keep(CreateFilter(c), books)
  }

  /** The criterion of `GET /books/filter`, `{"field": "author", "value": "Theodor Storm"}`. */
  const StormCriterion := Criterion(Author, VStr("Theodor Storm"))

  /** `GET /books/filter`: the books whose author is exactly "Theodor Storm". */
  function FilterEndpoint(books: seq<Book>): (r: seq<Book>)
    ensures forall i :: 0 <= i < |r| ==> r[i].author == "Theodor Storm"
    ensures forall i :: 0 <= i < |books| && books[i].author == "Theodor Storm" ==> books[i] in r
    ensures forall b :: multiset(r)[b] == if b.author == "Theodor Storm" then multiset(books)[b] else 0
    ensures Subsequence(r, books)
  {
    FilterBooks(books, StormCriterion)
  }

  /** The dictionary of `GET /books/filter` resolves to StormCriterion. */
  lemma StormCriterionResolves()
    ensures ResolveCriterion("author", VStr("Theodor Storm")) == Some(StormCriterion)
  {
  }

  /** A null genre matches a criterion whose value is null, as `None == None` does. */
  lemma NullMatchesNull(b: Book)
    requires b.genre.None?
    ensures FilterBooks([b], Criterion(Genre, VNull)) == [b]
  {
    assert [b][1..] == [];
  }
}
