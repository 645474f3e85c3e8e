/**
 * The request-payload check `validate_data(required_fields)` and its use
 * when a book is added (`POST /books`).
 */
module Validation {
  import opened Wrappers
  import opened Books

  /** A decoded JSON object: field names mapped to scalar values. */
  type Payload = map<string, Value>

  /**
   * `validate_data(required)(data)`, i.e. `all(field in data for field in
   * required)`: only the presence of each key is checked, not its value.
   */
  function Validate(required: seq<string>, data: Payload): (ok: bool)
    ensures ok <==> forall i :: 0 <= i < |required| ==> required[i] in data
  {
    if required == [] then true
    else required[0] in data && Validate(required[1..], data)
  }

  /** `validate_book_data = validate_data(["title", "author"])`. */
  function ValidateBookData(data: Payload): (ok: bool)
    ensures ok <==> "title" in data && "author" in data
  {
    var required := ["title", "author"];
    assert required[0] == "title" && required[1] == "author";
    Validate(required, data)
  }

  /** An empty title and a null author still pass: the check is about keys only. */
  lemma PresenceIsEnough()
    ensures ValidateBookData(map["title" := VStr(""), "author" := VNull])
    ensures !ValidateBookData(map["title" := VStr("Der Schimmelreiter")])
  {
    assert "title" in map["title" := VStr("Der Schimmelreiter")];
    assert "author" !in map["title" := VStr("Der Schimmelreiter")];
  }

  /**
   * The values of the keys a book payload may carry have the column types:
   * text for title and author, text or null for genre, integer or null for
   * year. The service hands them to the database without checking.
   */
  predicate WellTyped(data: Payload) {
    && ("title" in data ==> data["title"].VStr?)
    && ("author" in data ==> data["author"].VStr?)
    && ("genre" in data ==> data["genre"].VStr? || data["genre"].VNull?)
    && ("year" in data ==> data["year"].VInt? || data["year"].VNull?)
  }

  /** `data.get('genre')`: the genre, or null when the key is absent. */
  function GenreOf(data: Payload): (g: Option<string>)
    ensures g.Some? <==> "genre" in data && data["genre"].VStr?
    ensures g.Some? ==> data["genre"] == VStr(g.value)
  {
    if "genre" in data && data["genre"].VStr? then Some(data["genre"].s) else None
  }

  /** `data.get('year')`: the year, or null when the key is absent. */
  function YearOf(data: Payload): (y: Option<int>)
    ensures y.Some? <==> "year" in data && data["year"].VInt?
    ensures y.Some? ==> data["year"] == VInt(y.value)
  {
    if "year" in data && data["year"].VInt? then Some(data["year"].i) else None
  }

  datatype AddError = NoJsonData | TitleAndAuthorRequired

  /**
   * The book `POST /books` builds from a request body (`None` when the body
   * is not JSON), with `id` the key the database assigns.
   */
  function AddBook(data: Option<Payload>, id: int): (r: Result<Book, AddError>)
    requires data.Some? ==> WellTyped(data.value)
    ensures data.None? ==> r == Err(NoJsonData)
    ensures data.Some? ==> (r.Ok? <==> "title" in data.value && "author" in data.value)
    ensures data.Some? && r.Err? ==> r.error == TitleAndAuthorRequired
    ensures r.Ok? ==>
      && r.value.id == id
      && VStr(r.value.title) == data.value["title"]
      && VStr(r.value.author) == data.value["author"]
  {
    if data.None? then Err(NoJsonData)
    else if !ValidateBookData(data.value) then Err(TitleAndAuthorRequired)
    else
      var d := data.value;
      Ok(Book(id, d["title"].s, d["author"].s, GenreOf(d), YearOf(d)))
  }
}
