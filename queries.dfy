/**
 * The pure bodies of the read-only handlers of the book service: each
 * takes the books the database returned, in the order it returned them.
 */
module Queries {
  import opened Wrappers
  import opened Books
  import opened Sequences
  import opened Text
  import opened Sorting

  // ---------------------------------------------------------------- counting

  /** `GET /books/count`: `reduce(lambda acc, _: acc + 1, books, 0)`. */
  function Count(books: seq<Book>): (n: nat)
    ensures n == |books|
  {
    CountFrom(0, books)
  }

  // ------------------------------------------------------------ title lists

  /** `list(map(lambda book: book.title.upper(), books))`. */
  function UpperTitles(books: seq<Book>): (titles: seq<string>)
    ensures |titles| == |books|
    ensures forall i :: 0 <= i < |books| ==> titles[i] == Upper(books[i].title)
  {
    seq(|books|, i requires 0 <= i < |books| => Upper(books[i].title))
  }

  /** A title with its year, as `GET /books/capitalized` reports it. */
  datatype TitleYear = TitleYear(title: string, year: Option<int>)

  /** `GET /books/capitalized`: each book's title upper-cased, beside its year. */
  function Capitalized(books: seq<Book>): (rows: seq<TitleYear>)
    ensures |rows| == |books|
    ensures forall i :: 0 <= i < |books| ==>
      rows[i].title == UpperTitles(books)[i] && rows[i].year == books[i].year
  {
    seq(|books|, i requires 0 <= i < |books| => TitleYear(Upper(books[i].title), books[i].year))
  }

  /** `f"{title} ({year})"`. */
  function Info(b: Book): string {
    b.title + " (" + YearText(b.year) + ")"
  }

  /** `GET /books/info`: one info text per book, in order. */
  function BooksInfo(books: seq<Book>): (infos: seq<string>)
    ensures |infos| == |books|
    ensures forall i :: 0 <= i < |books| ==> infos[i] == Info(books[i])
  {
    seq(|books|, i requires 0 <= i < |books| => Info(books[i]))
  }

  /** The rendering of a year has no opening parenthesis. */
  lemma YearTextHasNoParen(y: Option<int>, i: int)
    requires 0 <= i < |YearText(y)|
    ensures YearText(y)[i] != '('
  {
    if y.Some? && y.value < 0 {
      if i > 0 {
        assert YearText(y)[i] == NatText(-y.value)[i - 1];
      }
    }
  }

  /**
   * An info text names its book's title and year unambiguously: the year
   * text holds no parenthesis, so the last " (" is the separator.
   */
  lemma InfoInjective(a: Book, b: Book)
    requires Info(a) == Info(b)
    ensures a.title == b.title && a.year == b.year
  {
    var s := Info(a);
    var ya, yb := YearText(a.year), YearText(b.year);
    if |a.title| < |b.title| {
      // position |b.title| + 1 is the separator's '(' in b's reading and inside the year text in a's
      var i := |b.title| + 1 - |a.title| - 2;
      assert s[|b.title| + 1] == '(';
      assert s[|b.title| + 1] == ya[i];
      YearTextHasNoParen(a.year, i);
    } else if |b.title| < |a.title| {
      var i := |a.title| + 1 - |b.title| - 2;
      assert s[|a.title| + 1] == '(';
      assert s[|a.title| + 1] == yb[i];
      YearTextHasNoParen(b.year, i);
    } else {
      assert a.title == s[..|a.title|] == b.title;
      assert ya == s[|a.title| + 2..|s| - 1] == yb;
      YearTextInjective(a.year, b.year);
    }
  }

  // ---------------------------------------------------------------- summary

  /** `lambda book: book.year > 1800` (the comparison raises on a null year). */
  predicate IsRecent(b: Book) {
    b.year.Some? && b.year.value > 1800
  }

  /** The books `GET /books/summary` keeps: `filter(lambda book: book.year > 1800, books)`. */
  function RecentBooks(books: seq<Book>): (recent: seq<Book>)
    requires AllDated(books)
    ensures forall i :: 0 <= i < |recent| ==> recent[i].year.Some? && recent[i].year.value > 1800
    ensures forall b :: multiset(recent)[b] == if IsRecent(b) then multiset(books)[b] else 0
    ensures Subsequence(recent, books)
  {
    KeepCounts(IsRecent, books);
    KeepSubsequence(IsRecent, books);
    Keep(IsRecent, books)
  }

  datatype Summary = Summary(titles: seq<string>, bookCount: int)

  /** `GET /books/summary`: filter, then map the titles, then count with reduce. */
  function BooksSummary(books: seq<Book>): (r: Summary)
    requires AllDated(books)
    ensures r.bookCount == |r.titles| <= |books|
    ensures r.titles == UpperTitles(RecentBooks(books)) && r.bookCount == |RecentBooks(books)|
  {
    var recent := RecentBooks(books);
    Summary(UpperTitles(recent), CountFrom(0, recent))
  }

  /** The same summary computed in one pass over the books. */
  function SummaryOnePass(books: seq<Book>): Summary
    requires AllDated(books)
  {
    if books == [] then Summary([], 0)
    else
      var rest := SummaryOnePass(books[1..]);
      if books[0].year.value > 1800 then Summary([Upper(books[0].title)] + rest.titles, rest.bookCount + 1)
      else rest
  }

  lemma UpperTitlesCons(b: Book, s: seq<Book>)
    ensures UpperTitles([b] + s) == [Upper(b.title)] + UpperTitles(s)
  {
  }

  /** Filtering, mapping and counting in three passes equals the fused pass. */
  lemma {:induction false} SummaryPassesAgree(books: seq<Book>)
    requires AllDated(books)
    ensures BooksSummary(books) == SummaryOnePass(books)
  {
    if books != [] {
      var b, rest := books[0], books[1..];
      assert books == [b] + rest;
      SummaryPassesAgree(rest);
      KeepCons(IsRecent, b, rest);
      if IsRecent(b) {
        UpperTitlesCons(b, RecentBooks(rest));
      }
    }
  }

  // ---------------------------------------------------------- author summary

  /** `author.lower() == "all"`: the token that selects every book. */
  predicate IsAllToken(author: string) {
    Lower(author) == "all"
  }

  /** The sentinel ignores letter case and nothing else: exactly the eight spellings of "all". */
  lemma AllTokenSpellings(author: string)
    ensures IsAllToken(author) <==>
      && |author| == 3
      && (author[0] == 'a' || author[0] == 'A')
      && (author[1] == 'l' || author[1] == 'L')
      && (author[2] == 'l' || author[2] == 'L')
  {
    if |author| == 3 {
      assert Lower(author) == [LowerChar(author[0]), LowerChar(author[1]), LowerChar(author[2])];
    }
  }

  datatype AuthorSummary = AuthorSummary(titles: seq<string>, totalBooks: int)

  /** `lambda book: book.author == author`. */
  function ByAuthor(author: string): Book -> bool {
    (b: Book) => b.author == author
  }

  /** The books `GET /books/summary/<author>` reports on. */
  function AuthorBooks(books: seq<Book>, author: string): (chosen: seq<Book>)
    ensures IsAllToken(author) ==> chosen == books
    ensures !IsAllToken(author) ==> forall i :: 0 <= i < |chosen| ==> chosen[i].author == author
    ensures !IsAllToken(author) ==>
      forall b :: multiset(chosen)[b] == if b.author == author then multiset(books)[b] else 0
    ensures Subsequence(chosen, books)
  {
    if IsAllToken(author) then
      SubsequenceOfSelf(books);
      books
    else
      KeepCounts(ByAuthor(author), books);
      KeepSubsequence(ByAuthor(author), books);
      Keep(ByAuthor(author), books)
  }

  /** `GET /books/summary/<author>`: upper-cased titles of the chosen books and their count. */
  function BooksSummaryByAuthor(books: seq<Book>, author: string): (r: AuthorSummary)
    ensures r.totalBooks == |r.titles|
    ensures r.titles == UpperTitles(AuthorBooks(books, author))
    ensures IsAllToken(author) ==> r.titles == UpperTitles(books)
  {
    var chosen := AuthorBooks(books, author);
    AuthorSummary(UpperTitles(chosen), CountFrom(0, chosen))
  }

  /** The author match is case-sensitive while the sentinel is not. */
  lemma AuthorMatchIsExact(b: Book)
    requires b.author == "theodor storm"
    ensures BooksSummaryByAuthor([b], "Theodor Storm").totalBooks == 0
    ensures BooksSummaryByAuthor([b], "ALL").totalBooks == 1
  {
    assert !IsAllToken("Theodor Storm") by {
      AllTokenSpellings("Theodor Storm");
    }
    AllTokenSpellings("ALL");
    var chosen := AuthorBooks([b], "Theodor Storm");
    assert multiset(chosen) == multiset{};
  }

  // --------------------------------------------------------------- earliest

  /** `lambda a, b: a if a.year < b.year else b`: on equal years the later book wins. */
  function Earlier(a: Book, b: Book): (r: Book)
    requires a.year.Some? && b.year.Some?
    ensures r == a || r == b
    ensures Key(r) <= Key(a) && Key(r) <= Key(b)
    ensures Key(a) == Key(b) ==> r == b
  {
    if Key(a) < Key(b) then a else b
  }

  /**
   * One step of the reduction compares two dated books, and the list it
   * continues with, headed by either of them, is again comparable.
   */
  lemma ComparableStep(acc: Book, rest: seq<Book>, next: Book)
    requires Comparable([acc] + rest) && rest != []
    requires next == acc || next == rest[0]
    ensures acc.year.Some? && rest[0].year.Some?
    ensures Comparable([next] + rest[1..])
  {
    var s := [acc] + rest;
    assert s[0] == acc && s[1] == rest[0];
    assert forall j :: 1 <= j < |rest| ==> ([next] + rest[1..])[j] == s[j + 1];
  }

  /** `reduce` of Earlier over `rest`, starting from `acc`. */
  function ReduceEarlier(acc: Book, rest: seq<Book>): (r: Book)
    requires Comparable([acc] + rest)
    ensures r == acc || r in rest
    ensures Key(r) <= Key(acc)
    ensures forall j :: 0 <= j < |rest| ==> Key(r) <= Key(rest[j])
    decreases |rest|
  {
    if rest == [] then acc
    else
      ComparableStep(acc, rest, acc);
      ComparableStep(acc, rest, rest[0]);
      ReduceEarlier(Earlier(acc, rest[0]), rest[1..])
  }

  datatype EarliestError = NoBooksFound

  /** `GET /books/earliest`: a book of least year, or an error when there are no books. */
  function Earliest(books: seq<Book>): (r: Result<Book, EarliestError>)
    requires Comparable(books)
    ensures r.Err? <==> books == []
    ensures r.Ok? ==> r.value in books && forall j :: 0 <= j < |books| ==> Key(r.value) <= Key(books[j])
  {
    if books == [] then Err(NoBooksFound)
    else
      assert books == [books[0]] + books[1..];
      Ok(ReduceEarlier(books[0], books[1..]))
  }

  /** Position `k` holds a book of least year and every later book is strictly younger. */
  ghost predicate IsLastMinimal(s: seq<Book>, k: int) {
    && 0 <= k < |s|
    && (forall j :: 0 <= j < |s| ==> Key(s[k]) <= Key(s[j]))
    && (forall j :: k < j < |s| ==> Key(s[k]) < Key(s[j]))
  }

  lemma {:induction false} ReduceEarlierLastMinimal(acc: Book, rest: seq<Book>, k: int)
    requires Comparable([acc] + rest) && IsLastMinimal([acc] + rest, k)
    ensures ReduceEarlier(acc, rest) == ([acc] + rest)[k]
    decreases |rest|
  {
    if rest != [] {
      var s := [acc] + rest;
      ComparableStep(acc, rest, acc);
      var next := Earlier(acc, rest[0]);
      ComparableStep(acc, rest, next);
      var s' := [next] + rest[1..];
      assert s[0] == acc && s[1] == rest[0];
      assert Key(s[k]) <= Key(s[0]) && Key(s[k]) <= Key(s[1]);
      if k >= 2 {
        assert forall j :: 1 <= j < |s'| ==> s'[j] == s[j + 1];
        assert IsLastMinimal(s', k - 1);
        ReduceEarlierLastMinimal(next, rest[1..], k - 1);
      } else {
        assert next == s[k];
        assert forall j :: 1 <= j < |s'| ==> s'[j] == s[j + 1];
        assert IsLastMinimal(s', 0);
        ReduceEarlierLastMinimal(next, rest[1..], 0);
      }
    }
  }

  /**
   * Among books of equal least year, Earliest picks the one that comes
   * last, because the reduction keeps its accumulator only when strictly
   * older.
   */
  lemma EarliestIsLastMinimal(books: seq<Book>, k: int)
    requires Comparable(books) && IsLastMinimal(books, k)
    ensures Earliest(books) == Ok(books[k])
  {
    assert books == [books[0]] + books[1..];
    ReduceEarlierLastMinimal(books[0], books[1..], k);
  }

  // ------------------------------------------------------------- year order

  /** `sort_books_by_year(books)`: ascending by year, stable. */
  function SortBooksByYear(books: seq<Book>): (r: seq<Book>)
    requires Comparable(books)
    ensures multiset(r) == multiset(books)
    ensures SortedByYear(r, false) && StableFor(r, books)
  {
    SortByYearSorted(books, false);
    SortByYearStable(books, false);
    SortByYear(books, false)
  }

  /** `GET /books/sorted`: `sorted(books, key=year, reverse=True)`, descending and stable. */
  function BooksSortedDescending(books: seq<Book>): (r: seq<Book>)
    requires Comparable(books)
    ensures multiset(r) == multiset(books)
    ensures SortedByYear(r, true) && StableFor(r, books)
  {
    SortByYearSorted(books, true);
    SortByYearStable(books, true);
    SortByYear(books, true)
  }

  /**
   * `Book.year.between(start, end)` as SQL evaluates it: both ends
   * inclusive; a null year or a missing bound never matches.
   */
  predicate InYearRange(b: Book, start: Option<int>, end: Option<int>) {
    && b.year.Some? && start.Some? && end.Some?
    && start.value <= b.year.value <= end.value
  }

  /** The range test as a function value. */
  function Between(start: Option<int>, end: Option<int>): Book -> bool {
    (b: Book) => InYearRange(b, start, end)
  }

  /** The books the year-range query selects, in the order the database returns them. */
  function BooksBetween(books: seq<Book>, start: Option<int>, end: Option<int>): (hits: seq<Book>)
    ensures AllDated(hits)
    ensures forall i :: 0 <= i < |hits| ==> InYearRange(hits[i], start, end)
    ensures forall b :: multiset(hits)[b] == if InYearRange(b, start, end) then multiset(books)[b] else 0
    ensures Subsequence(hits, books)
  {
    KeepCounts(Between(start, end), books);
    KeepSubsequence(Between(start, end), books);
    Keep(Between(start, end), books)
  }

  /** `GET /books/year-range`: the books in the range, sorted ascending by year. */
  function BooksByYearRange(books: seq<Book>, start: Option<int>, end: Option<int>): (r: seq<Book>)
    ensures forall i :: 0 <= i < |r| ==> InYearRange(r[i], start, end)
    ensures forall b :: multiset(r)[b] == if InYearRange(b, start, end) then multiset(books)[b] else 0
    ensures (start.None? || end.None? || start.value > end.value) ==> r == []
    ensures SortedByYear(r, false)
    ensures StableFor(r, BooksBetween(books, start, end))
  {
    var hits := BooksBetween(books, start, end);
    var r := SortBooksByYear(hits);
    assert forall i :: 0 <= i < |r| ==> r[i] in multiset(hits);
    r
  }
}
