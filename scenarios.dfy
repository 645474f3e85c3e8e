/** Worked examples on a three-book catalog. */
module Scenarios {
  import opened Wrappers
  import opened Books
  import opened Sequences
  import opened Text
  import opened Sorting
  import opened Queries

  const First := Book(1, "a", "X", None, Some(1750))
  const Second := Book(2, "b", "X", None, Some(1850))
  const Third := Book(3, "c", "Y", None, Some(1900))

  /** Keep applied to the catalog, one book at a time. */
  lemma KeepCatalog(p: Book -> bool)
    ensures Keep(p, [First, Second, Third])
         == (if p(First) then [First] else []) + (if p(Second) then [Second] else []) + (if p(Third) then [Third] else [])
  {
    KeepCons(p, Third, []);
    assert [Third] + [] == [Third];
    KeepCons(p, Second, [Third]);
    assert [Second] + [Third] == [Second, Third];
    KeepCons(p, First, [Second, Third]);
    assert [First] + [Second, Third] == [First, Second, Third];
  }

  /** Only the books after 1800 are summarised, with their titles upper-cased. */
  lemma SummaryScenario()
    ensures BooksSummary([First, Second, Third]) == Summary(["B", "C"], 2)
  {
    KeepCatalog(IsRecent);
    assert RecentBooks([First, Second, Third]) == [Second, Third];
    assert Upper("b") == "B" && Upper("c") == "C";
  }

  /** The book of 1750 is the earliest. */
  lemma EarliestScenario()
    ensures Earliest([First, Second, Third]) == Ok(First)
  {
    EarliestIsLastMinimal([First, Second, Third], 0);
  }

  /** "All" selects all three books. */
  lemma AllAuthorsScenario()
    ensures BooksSummaryByAuthor([First, Second, Third], "All").totalBooks == 3
  {
    AllTokenSpellings("All");
  }

  /** "X" selects the first two books. */
  lemma OneAuthorScenario()
    ensures AuthorBooks([First, Second, Third], "X") == [First, Second]
  {
    AllTokenSpellings("X");
    KeepCatalog(ByAuthor("X"));
  }

  /** The range 1800..1900 holds the second and third book in year order. */
  lemma YearRangeScenario()
    ensures BooksByYearRange([First, Second, Third], Some(1800), Some(1900)) == [Second, Third]
  {
    KeepCatalog(Between(Some(1800), Some(1900)));
    assert BooksBetween([First, Second, Third], Some(1800), Some(1900)) == [Second, Third];
    SortByYearOfSorted([Second, Third], false);
  }

  /** An inverted range holds no book, and is not an error. */
  lemma InvertedRangeScenario()
    ensures BooksByYearRange([First, Second, Third], Some(1900), Some(1800)) == []
  {
  }
}
