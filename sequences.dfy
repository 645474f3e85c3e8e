/**
 * The list idioms of the service: `filter` and list comprehensions with a
 * condition (Keep) and the counting `reduce(lambda acc, _: acc + 1, xs, 0)`.
 */
module Sequences {

  /** `xs` is `ys` with some elements dropped and the rest in their order. */
  ghost predicate Subsequence<T>(xs: seq<T>, ys: seq<T>)
    decreases |ys|
  {
    if xs == [] then true
    else if ys == [] then false
    else (xs[0] == ys[0] && Subsequence(xs[1..], ys[1..])) || Subsequence(xs, ys[1..])
  }

  /** A sequence is a subsequence of itself. */
  lemma {:induction false} SubsequenceOfSelf<T>(s: seq<T>)
    ensures Subsequence(s, s)
  {
    if s != [] {
      SubsequenceOfSelf(s[1..]);
    }
  }

  /** `[x for x in s if p(x)]`: the elements of `s` that satisfy `p`, in order. */
  function Keep<T(!new)>(p: T -> bool, s: seq<T>): (r: seq<T>)
    ensures |r| <= |s|
    ensures forall i :: 0 <= i < |r| ==> p(r[i])
  {
    if s == [] then []
    else if p(s[0]) then [s[0]] + Keep(p, s[1..])
    else Keep(p, s[1..])
  }

  /**
   * An element that satisfies `p` keeps all its occurrences, one that does
   * not loses all of them.
   */
  lemma {:induction false} KeepCounts<T(!new)>(p: T -> bool, s: seq<T>)
    ensures forall x :: multiset(Keep(p, s))[x] == if p(x) then multiset(s)[x] else 0
  {
    if s != [] {
      assert s == [s[0]] + s[1..];
      KeepCounts(p, s[1..]);
    }
  }

  /** The kept elements stay in their input order. */
  lemma {:induction false} KeepSubsequence<T(!new)>(p: T -> bool, s: seq<T>)
    ensures Subsequence(Keep(p, s), s)
  {
    if s != [] {
      KeepSubsequence(p, s[1..]);
    }
  }

  /** Keep distributes over concatenation. */
  lemma {:induction false} KeepAppend<T(!new)>(p: T -> bool, a: seq<T>, b: seq<T>)
    ensures Keep(p, a + b) == Keep(p, a) + Keep(p, b)
  {
    if a == [] {
      assert a + b == b;
    } else {
      assert (a + b)[1..] == a[1..] + b;
      KeepAppend(p, a[1..], b);
    }
  }

  /** Keep over a sequence with a known first element. */
  lemma KeepCons<T(!new)>(p: T -> bool, x: T, s: seq<T>)
    ensures Keep(p, [x] + s) == (if p(x) then [x] else []) + Keep(p, s)
  {
    KeepAppend(p, [x], s);
    assert ([x] + [])[1..] == [];
  }

  /** `reduce(lambda acc, _: acc + 1, s, acc)`: a left fold adding one per element. */
  function CountFrom<T>(acc: int, s: seq<T>): (n: int)
    ensures n == acc + |s|
    decreases |s|
  {
    if s == [] then acc else CountFrom(acc + 1, s[1..])
  }
}
