# Book catalog: record processing

A Flask service keeps a table of books (`id`, `title`, `author`, nullable
`genre`, nullable `year`) and answers HTTP requests about it. This project
models, in Dafny, the logic its request handlers in `routes.py` run on the
rows the database returns:

- the payload check `validate_data(required_fields)` and its use when a book
  is added;
- the criteria filter `create_filter` and the comprehension that applies it;
- the stable sorts by year, ascending (`sort_books_by_year`, the year-range
  handler) and descending (`reverse=True`);
- the `reduce` that picks the earliest book;
- the summaries: books after 1800 with upper-cased titles and a count, the
  per-author summary with its case-insensitive `all` sentinel, the counting
  `reduce`, the upper-cased title lists and the `"title (year)"` texts;
- the partial update of a stored book by `PUT` and `PATCH`.

The database is replaced by a `seq<Book>` argument holding the rows in the
order the database returned them. Modules: `Books` (the row and its
fields), `Sequences` (filtering as a comprehension, counting by `reduce`),
`Text` (`str.upper`, `str.lower`, integer text), `Validation`, `Filters`,
`Sorting`, `Queries` (the read-only handlers), `Updates` (a `BookRow` class
whose `Put` and `Patch` methods assign its fields in place), `Scenarios`
(worked examples on a three-book catalog).

Conventions:

- `Key(b)` is a book's year. Python compares years only when a list has at
  least two books, and a comparison with a null year raises `TypeError`.
  `Comparable(books)` (at most one book, or every year present) is therefore
  the precondition of the sorts and of the earliest-book reduction, and
  `AllDated(books)` that of the 1800 summary, whose filter compares every
  book.
- The year-range handler delegates selection to SQL `BETWEEN`
  (`InYearRange`): inclusive at both ends, a null year never matches, and a
  missing `start` or `end` argument (`request.args.get(..., type=int)`
  yields `None`) makes every comparison unknown, so nothing matches.
- The validator checks only that each required key is present; an empty
  or null value passes (`Validation.PresenceIsEnough`).
- `earliest` keeps the last of the books of least year, because
  `a if a.year < b.year else b` returns `b` on equal years
  (`Queries.EarliestIsLastMinimal`).
- Books with a null year are not skipped by the sorts and reductions; the
  code raises on such inputs when it compares them, so they lie outside the
  preconditions.

## Model

| member | source | states |
|---|---|---|
| `Books.FieldValue` | routes.py:312 | the attribute value of a book is null exactly for a missing genre or year |
| `Books.ParseField` | routes.py:312 | a name that resolves denotes the field of that name; other names are unknown |
| `Books.ParseFieldName` | routes.py:312 | every field is found again from its attribute name |
| `Sequences.Keep` | routes.py:327 | a comprehension with a condition keeps only elements that satisfy it and is no longer than its input |
| `Sequences.KeepCounts` | routes.py:327 | each element that satisfies the condition keeps all its occurrences and every other element loses all of them |
| `Sequences.KeepSubsequence` | routes.py:327 | the kept elements stay in input order |
| `Sequences.CountFrom` | routes.py:262 | `reduce(lambda acc, _: acc + 1, xs, acc)` ends at `acc` plus the length of `xs` |
| `Text.Upper` | routes.py:221 | upper-casing keeps the length and raises each ASCII lower-case letter |
| `Text.Lower` | routes.py:236 | lower-casing keeps the length and lowers each ASCII upper-case letter |
| `Text.UpperIdempotent` | routes.py:221 | upper-casing an upper-cased title changes nothing |
| `Text.YearText` | routes.py:286 | a null year is rendered as `None`, and only a null year starts with `N` |
| `Text.NatTextRoundTrip` | routes.py:286 | reading back the decimal digits of a number gives the number |
| `Text.IntTextInjective` | routes.py:286 | different integers get different decimal texts |
| `Text.YearTextInjective` | routes.py:286 | different nullable years get different texts |
| `Validation.Validate` | routes.py:43-55 | the validator accepts iff every required name is a key of the payload, so an empty list accepts everything |
| `Validation.ValidateBookData` | routes.py:58 | a book payload is accepted iff it has both a `title` and an `author` key |
| `Validation.PresenceIsEnough` | routes.py:52-53 | an empty title and a null author pass; a payload without `author` fails |
| `Validation.GenreOf` | routes.py:87 | `data.get('genre')` is a genre exactly when the key holds a text, and then it is that text |
| `Validation.YearOf` | routes.py:87 | `data.get('year')` is a year exactly when the key holds an integer, and then it is that integer |
| `Validation.AddBook` | routes.py:82-87 | no JSON body is an error; otherwise a book is built iff title and author keys are present, with the assigned id and the payload's title and author |
| `Filters.ResolveCriterion` | routes.py:311-312 | a field/value dictionary resolves iff its field names a column, to a criterion on that column with that value |
| `Filters.StormCriterionResolves` | routes.py:324 | the endpoint's dictionary resolves to an equality on the author |
| `Filters.FilterBooks` | routes.py:302-314 | the filtered list holds exactly the books whose chosen field equals the value, every copy of each, in input order, no longer than the input |
| `Filters.FilterEndpoint` | routes.py:324-327 | exactly the books by "Theodor Storm", every copy of each, in input order |
| `Filters.NullMatchesNull` | routes.py:312 | a book with a null genre matches a criterion whose value is null |
| `Sorting.SortByYear` | routes.py:362 | the sorted list is a permutation of the input |
| `Sorting.SortByYearSorted` | routes.py:274 | the result is non-decreasing in year, or non-increasing with `reverse=True` |
| `Sorting.SortByYearStable` | routes.py:165 | within every year the result keeps the input order, in both directions |
| `Sorting.SortByYearOfSorted` | routes.py:362 | sorting a list already in year order returns it unchanged |
| `Sorting.SortByYearIdempotent` | routes.py:362 | sorting twice is sorting once |
| `Sorting.SortByYearUnique` | routes.py:362 | any arrangement in year order that keeps input order within each year is the sort's result |
| `Sorting.SortedGroupsDetermine` | routes.py:362 | two year-ordered lists with the same books in the same order per year are equal |
| `Queries.Count` | routes.py:261-263 | the counting reduce over the books is their number |
| `Queries.UpperTitles` | routes.py:250 | one upper-cased title per book, in order |
| `Queries.Capitalized` | routes.py:297-299 | one row per book: its upper-cased title beside its own year |
| `Queries.BooksInfo` | routes.py:285-286 | one info text per book, in order |
| `Queries.InfoInjective` | routes.py:286 | an info text determines the title and the year it was made from |
| `Queries.RecentBooks` | routes.py:220 | the summary keeps exactly the books with year strictly above 1800, every copy, in order |
| `Queries.BooksSummary` | routes.py:219-223 | `titles` are the upper-cased titles of the books after 1800, in order, and `book_count` is their number, at most the number of books |
| `Queries.SummaryPassesAgree` | routes.py:220-222 | filtering, mapping and counting in three passes equals one fused pass |
| `Queries.AllTokenSpellings` | routes.py:236 | the sentinel is exactly the eight case variants of "all" |
| `Queries.AuthorBooks` | routes.py:236 | the sentinel selects every book; any other author selects exactly the books whose author equals it, every copy, in order |
| `Queries.BooksSummaryByAuthor` | routes.py:235-239 | `titles` are the upper-cased titles of the chosen books, in order, and `total_books` is their number; the sentinel gives every book's title |
| `Queries.AuthorMatchIsExact` | routes.py:236 | the author match is case-sensitive while "ALL" selects everything |
| `Queries.Earlier` | routes.py:179 | on two dated books the reduction step returns one of its arguments, with the smaller year, and the second on equal years |
| `Queries.ReduceEarlier` | routes.py:179 | on comparable books the reduction returns the start or a later book, with a year no greater than any of them |
| `Queries.Earliest` | routes.py:176-179 | no books is the 404 error; otherwise a book of the list whose year is no greater than any book's |
| `Queries.EarliestIsLastMinimal` | routes.py:179 | among books of least year the reduction returns the last one |
| `Queries.SortBooksByYear` | routes.py:354-362 | a permutation, non-decreasing in year, input order kept within a year |
| `Queries.BooksSortedDescending` | routes.py:273-274 | a permutation, non-increasing in year, input order kept within a year |
| `Queries.BooksBetween` | routes.py:164 | exactly the books with a year between both bounds inclusive, every copy, in the order of the rows |
| `Queries.BooksByYearRange` | routes.py:162-165 | exactly the in-range books, every copy, sorted ascending with books of one year in the order the query returned them; an inverted range or a missing bound gives nothing, without error |
| `Updates.Merge` | routes.py:200-207 | a field whose key is in the payload takes the payload's value, every other field and the id stay |
| `Updates.MergeEmpty` | routes.py:200-207 | an empty payload changes nothing |
| `Updates.MergeIdempotent` | routes.py:200-207 | applying the same payload twice equals applying it once |
| `Updates.MergeSequential` | routes.py:117-120 | two updates in a row are one update with the later payload's keys taking precedence |
| `Updates.AddBookIsMerge` | routes.py:87 | a new book is a blank book with its id updated from the request body |
| `Updates.BookRow.constructor` | models.py:11-16 | a row holds the column values it was given |
| `Updates.BookRow.Put` | routes.py:117-120 | after `update_book` the row is the merge of its old value with the payload |
| `Updates.BookRow.Patch` | routes.py:200-207 | after `patch_book` the row is the merge of its old value with the payload |
| `Scenarios.SummaryScenario` | routes.py:220-222 | of books from 1750, 1850 and 1900 the summary reports `["B", "C"]` and 2 |
| `Scenarios.EarliestScenario` | routes.py:179 | the book from 1750 is the earliest of the three |
| `Scenarios.AllAuthorsScenario` | routes.py:236 | "All" selects all three books |
| `Scenarios.OneAuthorScenario` | routes.py:236 | "X" selects the two books by X |
| `Scenarios.YearRangeScenario` | routes.py:164-165 | the range 1800 to 1900 gives the books from 1850 and 1900 in that order |
| `Scenarios.InvertedRangeScenario` | routes.py:164 | the range 1900 to 1800 gives nothing |

## Left out

- HTTP routing, request parsing, `jsonify`, status codes and the route table of `index`: transport, no logic. The 404 of `earliest` is the `NoBooksFound` error value; the 400 of `add_book` is an `AddError`.
- The projections of each book to the keys a response lists (for instance the year-range response drops `year`, the descending list keeps `title` and `year`): they select keys for serialisation only. The capitalized list, whose projection computes a value, is modelled.
- SQLAlchemy: `Book.query.all/get/get_or_404/filter_by`, `db.session` calls, `delete_book`, `get_books`, `get_book_by_id`, and the author queries `filter_books_by_author` and `filter_books_by_author_lambda`, which are database queries; the model takes their result as a sequence. The "not found" responses of `update_book` and `patch_book` are lookups and are not modelled.
- `apply_filter`: it only calls its argument.
- `Updates.BookRow.Put`, `Updates.BookRow.Patch`: `update_book` and `patch_book` do not check that the request has a JSON body; without one, `data.get` or `'title' in data` raises (a server error). The methods take a payload, so this path is not modelled.
- models.py's `String(n)` lengths and table creation, and app.py's configuration: not checked or used by the handlers.
- `Text.Upper`, `Text.Lower`: only ASCII letters change case; Python's full Unicode mapping, which can change a string's length, is not modelled.
- `Validation.AddBook`, `Updates.Merge`, `Updates.BookRow.Put`, `Updates.BookRow.Patch`, `Validation.WellTyped`: payload values of another JSON type than their column (a numeric title, a text year) are passed to the database unchecked; the model requires them to have the column's type, and models JSON values as null, integer or text only (no booleans, floats, arrays or objects). A payload that is a JSON array rather than an object is not modelled.
- `Books.ParseField`: `getattr` also reaches ORM attributes other than the five columns; only the columns are modelled.
- `Queries.Earliest`, `Queries.Earlier`, `Queries.ReduceEarlier`, `Sorting.SortByYear`, `Queries.BooksSummary`: the `TypeError` Python raises when a null year is compared is a precondition, not a modelled error.
