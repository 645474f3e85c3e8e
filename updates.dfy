/**
 * `PUT /books/<id>` and `PATCH /books/update-fields/<id>`: the stored book
 * is changed in place, one field at a time, from the keys of the payload.
 */
module Updates {
  import opened Wrappers
  import opened Books
  import opened Validation

  /**
   * The book after a partial update: a field whose key is in the payload
   * takes the payload's value, every other field and the id stay.
   */
  function Merge(b: Book, data: Payload): (r: Book)
    requires WellTyped(data)
    ensures r.id == b.id
    ensures forall f :: f != Id ==>
      FieldValue(r, f) == if FieldName(f) in data then data[FieldName(f)] else FieldValue(b, f)
  {
    Book(
      b.id,
      if "title" in data then data["title"].s else b.title,
      if "author" in data then data["author"].s else b.author,
      if "genre" in data then (if data["genre"].VStr? then Some(data["genre"].s) else None) else b.genre,
      if "year" in data then (if data["year"].VInt? then Some(data["year"].i) else None) else b.year)
  }

  /** An empty payload changes nothing. */
  lemma MergeEmpty(b: Book)
    ensures Merge(b, map[]) == b
  {
  }

  /** Sending the same payload twice has the effect of sending it once. */
  lemma MergeIdempotent(b: Book, data: Payload)
    requires WellTyped(data)
    ensures Merge(Merge(b, data), data) == Merge(b, data)
  {
  }

  /** Two updates in a row are one update with the later payload taking precedence. */
  lemma MergeSequential(b: Book, first: Payload, second: Payload)
    requires WellTyped(first) && WellTyped(second)
    ensures WellTyped(first + second)
    ensures Merge(Merge(b, first), second) == Merge(b, first + second)
  {
    var both := first + second;
    assert WellTyped(both) by {
      forall k | k in both ensures both[k] == if k in second then second[k] else first[k] {
      }
    }
    var stepwise, once := Merge(Merge(b, first), second), Merge(b, both);
    assert stepwise.title == once.title;
    assert stepwise.author == once.author;
    assert stepwise.genre == once.genre;
    assert stepwise.year == once.year;
  }

  /** A new book is a blank book with its id, updated from the request body. */
  lemma AddBookIsMerge(data: Payload, id: int)
    requires WellTyped(data) && ValidateBookData(data)
    ensures AddBook(Some(data), id) == Ok(Merge(Book(id, "", "", None, None), data))
  {
  }

  /** A stored book whose fields a request handler assigns. */
  class BookRow {
    var id: int
    var title: string
    var author: string
    var genre: Option<string>
    var year: Option<int>

    /** The current field values. */
    function Snapshot(): Book
      reads this
    {
      Book(id, title, author, genre, year)
    }

    constructor (b: Book)
      ensures Snapshot() == b
    {
      id, title, author, genre, year := b.id, b.title, b.author, b.genre, b.year;
    }

    /** `update_book`: every field is set to `data.get(field, current value)`. */
    method Put(data: Payload)
      requires WellTyped(data)
      modifies this
      ensures Snapshot() == Merge(old(Snapshot()), data)
    {
      title := if "title" in data then data["title"].s else title;
      author := if "author" in data then data["author"].s else author;
      genre := if "genre" in data then (if data["genre"].VStr? then Some(data["genre"].s) else None) else genre;
      year := if "year" in data then (if data["year"].VInt? then Some(data["year"].i) else None) else year;
    }

    /** `patch_book`: a field is assigned only when its key is in `data`. */
    method Patch(data: Payload)
      requires WellTyped(data)
      modifies this
      ensures Snapshot() == Merge(old(Snapshot()), data)
    {
      if "title" in data {
        title := data["title"].s;
      }
      if "author" in data {
        author := data["author"].s;
      }
      if "genre" in data {
        genre := if data["genre"].VStr? then Some(data["genre"].s) else None;
      }
      if "year" in data {
        year := if data["year"].VInt? then Some(data["year"].i) else None;
      }
    }
  }
}
