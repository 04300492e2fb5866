/** Order-preserving filtering of sequences, as `Array.prototype.filter` does. */
module Seqs {

  /** `a` can be obtained from `b` by deleting elements, keeping the order of
      the rest. */
  ghost predicate IsSubsequence<T>(a: seq<T>, b: seq<T>)
    decreases |b|
  {
    |a| == 0
    || (|b| > 0
        && ((a[0] == b[0] && IsSubsequence(a[1..], b[1..])) || IsSubsequence(a, b[1..])))
  }

  /** `s.filter(p)`: the elements of `s` satisfying `p`, in their original order. */
  function Filter<T>(p: T -> bool, s: seq<T>): (r: seq<T>)
    ensures |r| <= |s|
    ensures forall i :: 0 <= i < |r| ==> r[i] in s && p(r[i])
    ensures forall i :: 0 <= i < |s| && p(s[i]) ==> s[i] in r
    ensures IsSubsequence(r, s)
    ensures (forall i :: 0 <= i < |s| ==> p(s[i])) ==> r == s
    decreases |s|
  {
    if |s| == 0 then []
    else if p(s[0]) then [s[0]] + Filter(p, s[1..])
    else Filter(p, s[1..])
  }

  /** Filtering with two predicates that agree on every element gives the same result. */
  lemma {:induction false} FilterCongruent<T>(p: T -> bool, q: T -> bool, s: seq<T>)
    requires forall i :: 0 <= i < |s| ==> p(s[i]) == q(s[i])
    ensures Filter(p, s) == Filter(q, s)
    decreases |s|
  {
    if |s| > 0 {
      FilterCongruent(p, q, s[1..]);
    }
  }

  /** `filter` keeps every copy of a passing element and no copy of a failing
      one: each element occurs in the result as often as in `s` if it passes,
      and not at all otherwise. */
  lemma {:induction false} FilterCounts<T>(p: T -> bool, s: seq<T>, x: T)
    ensures multiset(Filter(p, s))[x] == if p(x) then multiset(s)[x] else 0
    decreases |s|
  {
    if |s| > 0 {
      var t, f := s[1..], Filter(p, s[1..]);
      FilterCounts(p, t, x);
      assert s == [s[0]] + t;
      CountCons(s[0], t, x);
      if p(s[0]) {
        assert Filter(p, s) == [s[0]] + f;
        CountCons(s[0], f, x);
      } else {
        assert Filter(p, s) == f;
      }
    }
  }

  /** The occurrences of `x` in `[y] + t`. */
  lemma CountCons<T>(y: T, t: seq<T>, x: T)
    ensures multiset([y] + t)[x] == (if y == x then 1 else 0) + multiset(t)[x]
  {
    assert multiset([y] + t) == multiset{y} + multiset(t);
  }
}
