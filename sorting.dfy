/**
 * `sorted(books, key=lambda b: b.year)` and its `reverse=True` variant.
 * Python's sort is stable in both directions: books with equal years keep
 * their input order. The model is a stable insertion sort.
 */
module Sorting {
  import opened Books
  import opened Sequences

  /** Year `a` may come before year `b` in the requested direction. */
  predicate InOrder(descending: bool, a: int, b: int) {
    if descending then a >= b else a <= b
  }

  /** The books are ordered by year (non-decreasing, or non-increasing when descending). */
  ghost predicate SortedByYear(s: seq<Book>, descending: bool) {
    forall i, j :: 0 <= i < j < |s| ==> InOrder(descending, Key(s[i]), Key(s[j]))
  }

  /** The test "this book is of year `k`". */
  function OfYear(k: int): Book -> bool {
    (b: Book) => Key(b) == k
  }

  /** The books of year `k`, in the order in which `s` holds them. */
  function YearGroup(s: seq<Book>, k: int): seq<Book> {
    Keep(OfYear(k), s)
  }

  /** `r` holds, for every year, the same books in the same order as `s`. */
  ghost predicate StableFor(r: seq<Book>, s: seq<Book>) {
    forall k :: YearGroup(r, k) == YearGroup(s, k)
  }

  /** Put `x` in front of the first book it may precede. */
  function Insert(x: Book, s: seq<Book>, descending: bool): (r: seq<Book>)
    ensures |r| == |s| + 1
    ensures multiset(r) == multiset(s) + multiset{x}
    ensures forall y :: y in r <==> y == x || y in s
  {
    if s == [] || InOrder(descending, Key(x), Key(s[0])) then [x] + s
    else
      assert s == [s[0]] + s[1..];
      [s[0]] + Insert(x, s[1..], descending)
  }

  /** `sorted(books, key=year, reverse=descending)`. */
  function SortByYear(s: seq<Book>, descending: bool): (r: seq<Book>)
    requires Comparable(s)
    ensures |r| == |s|
    ensures multiset(r) == multiset(s)
  {
    if s == [] then []
    else
      assert s == [s[0]] + s[1..];
      Insert(s[0], SortByYear(s[1..], descending), descending)
  }

  lemma {:induction false} InsertSorted(x: Book, s: seq<Book>, descending: bool)
    requires SortedByYear(s, descending)
    ensures SortedByYear(Insert(x, s, descending), descending)
  {
    if s == [] || InOrder(descending, Key(x), Key(s[0])) {
    } else {
      var t := s[1..];
      InsertSorted(x, t, descending);
      var r := Insert(x, t, descending);
      forall j | 0 <= j < |r|
        ensures InOrder(descending, Key(s[0]), Key(r[j]))
      {
        assert r[j] in r;
        if r[j] != x {
          var m :| 0 <= m < |t| && t[m] == r[j];
          assert s[m + 1] == t[m];
        }
      }
    }
  }

  /** The result of SortByYear is ordered by year. */
  lemma {:induction false} SortByYearSorted(s: seq<Book>, descending: bool)
    requires Comparable(s)
    ensures SortedByYear(SortByYear(s, descending), descending)
  {
    if s != [] {
      SortByYearSorted(s[1..], descending);
      InsertSorted(s[0], SortByYear(s[1..], descending), descending);
    }
  }

  lemma {:induction false} InsertStable(x: Book, s: seq<Book>, descending: bool, k: int)
    requires SortedByYear(s, descending)
    ensures YearGroup(Insert(x, s, descending), k) == YearGroup([x] + s, k)
  {
    if s == [] || InOrder(descending, Key(x), Key(s[0])) {
    } else {
      var p := OfYear(k);
      var t := s[1..];
      assert s == [s[0]] + t;
      assert SortedByYear(t, descending);
      InsertStable(x, t, descending, k);
      KeepCons(p, s[0], Insert(x, t, descending));
      KeepCons(p, x, t);
      KeepCons(p, s[0], t);
      KeepCons(p, x, s);
    }
  }

  lemma {:induction false} SortByYearStableAt(s: seq<Book>, descending: bool, k: int)
    requires Comparable(s)
    ensures YearGroup(SortByYear(s, descending), k) == YearGroup(s, k)
  {
    if s != [] {
      var t := s[1..];
      var p := OfYear(k);
      assert s == [s[0]] + t;
      SortByYearStableAt(t, descending, k);
      SortByYearSorted(t, descending);
      InsertStable(s[0], SortByYear(t, descending), descending, k);
      KeepCons(p, s[0], SortByYear(t, descending));
      KeepCons(p, s[0], t);
    }
  }

  /** Within each year the result of SortByYear keeps the input order. */
  lemma SortByYearStable(s: seq<Book>, descending: bool)
    requires Comparable(s)
    ensures StableFor(SortByYear(s, descending), s)
  {
    forall k ensures YearGroup(SortByYear(s, descending), k) == YearGroup(s, k) {
      SortByYearStableAt(s, descending, k);
    }
  }

  /** Sorting a sequence that is already ordered changes nothing. */
  lemma {:induction false} SortByYearOfSorted(s: seq<Book>, descending: bool)
    requires Comparable(s) && SortedByYear(s, descending)
    ensures SortByYear(s, descending) == s
  {
    if s != [] {
      var t := s[1..];
      assert s == [s[0]] + t;
      SortByYearOfSorted(t, descending);
    }
  }

  /** A permutation of a comparable sequence is comparable. */
  lemma ComparablePermutation(r: seq<Book>, s: seq<Book>)
    requires Comparable(s) && multiset(r) == multiset(s)
    ensures Comparable(r)
  {
    if |r| > 1 {
      forall i | 0 <= i < |r| ensures r[i].year.Some? {
        assert r[i] in multiset(s);
        var m :| 0 <= m < |s| && s[m] == r[i];
      }
    }
  }

  /** Sorting twice is sorting once. */
  lemma SortByYearIdempotent(s: seq<Book>, descending: bool)
    requires Comparable(s)
    ensures Comparable(SortByYear(s, descending))
    ensures SortByYear(SortByYear(s, descending), descending) == SortByYear(s, descending)
  {
    ComparablePermutation(SortByYear(s, descending), s);
    SortByYearSorted(s, descending);
    SortByYearOfSorted(SortByYear(s, descending), descending);
  }

  /** The group of the year of the first book starts with that book. */
  lemma HeadGroup(s: seq<Book>)
    ensures s != [] ==> YearGroup(s, Key(s[0])) == [s[0]] + YearGroup(s[1..], Key(s[0]))
  {
    if s != [] {
      assert s == [s[0]] + s[1..];
      KeepCons(OfYear(Key(s[0])), s[0], s[1..]);
    }
  }

  /** Every book of a year group is a book of the sequence. */
  lemma GroupMember(s: seq<Book>, k: int, i: int)
    requires 0 <= i < |YearGroup(s, k)|
    ensures YearGroup(s, k)[i] in s && Key(YearGroup(s, k)[i]) == k
  {
    var g := YearGroup(s, k);
    KeepCounts(OfYear(k), s);
    assert g[i] in multiset(g);
  }

  /** Sequences with the same year groups are empty together. */
  lemma GroupsEmpty(a: seq<Book>, b: seq<Book>)
    requires StableFor(a, b) && a == []
    ensures b == []
  {
    HeadGroup(b);
  }

  /** Ordered sequences with the same year groups start with the same book. */
  lemma HeadsAgree(a: seq<Book>, b: seq<Book>, descending: bool)
    requires SortedByYear(a, descending) && SortedByYear(b, descending)
    requires StableFor(a, b) && a != [] && b != []
    ensures a[0] == b[0]
  {
    var x, y := a[0], b[0];
    HeadGroup(a);
    HeadGroup(b);
    // the year of each head occurs in the other sequence, so neither year precedes the other
    assert YearGroup(a, Key(y)) == YearGroup(b, Key(y));
    GroupMember(a, Key(y), 0);
    assert InOrder(descending, Key(x), Key(y));
    assert YearGroup(a, Key(x)) == YearGroup(b, Key(x));
    GroupMember(b, Key(x), 0);
  }

  lemma TailGroup(a: seq<Book>, b: seq<Book>, k: int)
    requires a != [] && b != [] && a[0] == b[0]
    requires YearGroup(a, k) == YearGroup(b, k)
    ensures YearGroup(a[1..], k) == YearGroup(b[1..], k)
  {
    var p := OfYear(k);
    assert a == [a[0]] + a[1..] && b == [b[0]] + b[1..];
    KeepCons(p, a[0], a[1..]);
    KeepCons(p, b[0], b[1..]);
    if p(a[0]) {
      assert YearGroup(a[1..], k) == YearGroup(a, k)[1..];
      assert YearGroup(b[1..], k) == YearGroup(b, k)[1..];
    }
  }

  /** Dropping a common first book keeps the year groups equal. */
  lemma TailsStable(a: seq<Book>, b: seq<Book>)
    requires StableFor(a, b) && a != [] && b != [] && a[0] == b[0]
    ensures StableFor(a[1..], b[1..])
  {
    forall k ensures YearGroup(a[1..], k) == YearGroup(b[1..], k) {
      TailGroup(a, b, k);
    }
  }

  /** Two ordered sequences with the same year groups are equal. */
  lemma {:induction false} SortedGroupsDetermine(a: seq<Book>, b: seq<Book>, descending: bool)
    requires SortedByYear(a, descending) && SortedByYear(b, descending)
    requires StableFor(a, b)
    ensures a == b
    decreases |a|
  {
    if a == [] {
      GroupsEmpty(a, b);
    } else if b == [] {
      GroupsEmpty(b, a);
    } else {
      HeadsAgree(a, b, descending);
      TailsStable(a, b);
      SortedGroupsDetermine(a[1..], b[1..], descending);
    }
  }

  /**
   * SortByYear is the only stable sort by year: any arrangement of `s`
   * that is ordered by year and keeps the input order within each year
   * is SortByYear(s).
   */
  lemma SortByYearUnique(s: seq<Book>, r: seq<Book>, descending: bool)
    requires Comparable(s)
    requires SortedByYear(r, descending) && StableFor(r, s)
    ensures r == SortByYear(s, descending)
  {
    SortByYearSorted(s, descending);
    SortByYearStable(s, descending);
    SortedGroupsDetermine(r, SortByYear(s, descending), descending);
  }
}
