/** Order-preserving selection over sequences: the list comprehension
    `[x for x in s if p(x)]` and the facts about it the model relies on. */
module Seqs {

  /** `a` is obtained from `b` by deleting elements: same relative order,
      nothing reordered and nothing repeated. */
  ghost predicate IsSubsequence<T>(a: seq<T>, b: seq<T>)
    decreases |b|
  {
    if |a| == 0 then true
    else if |b| == 0 then false
    else (a[0] == b[0] && IsSubsequence(a[1..], b[1..])) || IsSubsequence(a, b[1..])
  }

  /** The elements of `s` that satisfy `p`, in their order in `s`. */
  function Filter<T>(p: T -> bool, s: seq<T>): (r: seq<T>)
    ensures |r| <= |s|
    ensures forall x | x in r :: x in s && p(x)
    ensures forall x | x in s && p(x) :: x in r
    ensures multiset(r) <= multiset(s)
    ensures IsSubsequence(r, s)
  {
    if |s| == 0 then []
    else
      assert s == [s[0]] + s[1..];
      var rest := Filter(p, s[1..]);
      if p(s[0]) then
        assert ([s[0]] + rest)[1..] == rest;
        [s[0]] + rest
      else rest
  }

  /** Selection from a two-element sequence keeps each element exactly when it passes. */
  lemma FilterPair<T>(p: T -> bool, a: T, b: T)
    ensures Filter(p, [a, b]) == (if p(a) then [a] else []) + (if p(b) then [b] else [])
  {
    assert [a, b][1..] == [b];
    assert [b][1..] == [];
  }

  /** Selection keeps every copy of an element that passes and no copy of
      one that fails. */
  lemma {:induction false} FilterCounts<T>(p: T -> bool, s: seq<T>)
    ensures forall x | x in s :: multiset(Filter(p, s))[x] == if p(x) then multiset(s)[x] else 0
    decreases |s|
  {
    if |s| > 0 {
      assert s == [s[0]] + s[1..];
      FilterCounts(p, s[1..]);
      forall x | x in s
        ensures multiset(Filter(p, s))[x] == if p(x) then multiset(s)[x] else 0
      {
        if x !in s[1..] {
          assert multiset(s[1..])[x] == 0;
          assert multiset(Filter(p, s[1..]))[x] == 0;
        }
      }
    }
  }

  /** Selection distributes over concatenation: kept elements stay in input order. */
  lemma {:induction false} FilterAppend<T>(p: T -> bool, a: seq<T>, b: seq<T>)
    ensures Filter(p, a + b) == Filter(p, a) + Filter(p, b)
    decreases |a|
  {
    if |a| == 0 {
      assert a + b == b;
    } else {
      assert (a + b)[0] == a[0];
      assert (a + b)[1..] == a[1..] + b;
      FilterAppend(p, a[1..], b);
    }
  }

  /** When every element passes, nothing is dropped. */
  lemma {:induction false} FilterAllPass<T>(p: T -> bool, s: seq<T>)
    requires forall x | x in s :: p(x)
    ensures Filter(p, s) == s
    decreases |s|
  {
    if |s| > 0 {
      assert s[0] in s;
      assert forall x | x in s[1..] :: x in s;
      FilterAllPass(p, s[1..]);
      assert s == [s[0]] + s[1..];
    }
  }

  /** Two selections that agree on every element select the same elements. */
  lemma {:induction false} FilterCongruent<T>(p: T -> bool, q: T -> bool, s: seq<T>)
    requires forall x | x in s :: p(x) == q(x)
    ensures Filter(p, s) == Filter(q, s)
    decreases |s|
  {
    if |s| > 0 {
      assert s[0] in s;
      assert forall x | x in s[1..] :: x in s;
      FilterCongruent(p, q, s[1..]);
    }
  }

  /** A stronger selection keeps a subsequence of what a weaker one keeps. */
  lemma {:induction false} FilterStronger<T>(p: T -> bool, q: T -> bool, s: seq<T>)
    requires forall x | x in s :: p(x) ==> q(x)
    ensures IsSubsequence(Filter(p, s), Filter(q, s))
    decreases |s|
  {
    if |s| > 0 {
      assert s[0] in s;
      assert forall x | x in s[1..] :: x in s;
      FilterStronger(p, q, s[1..]);
      var fp := Filter(p, s[1..]);
      var fq := Filter(q, s[1..]);
      if p(s[0]) {
        assert ([s[0]] + fp)[1..] == fp;
        assert ([s[0]] + fq)[1..] == fq;
      } else if q(s[0]) {
        assert ([s[0]] + fq)[1..] == fq;
      }
    }
  }

  /** `f` applied to each element of `s`, in order. */
  function Map<T, U>(f: T -> U, s: seq<T>): (r: seq<U>)
    ensures |r| == |s|
    ensures forall i | 0 <= i < |s| :: r[i] == f(s[i])
  {
    seq(|s|, i requires 0 <= i < |s| => f(s[i]))
  }

  /** Mapping distributes over concatenation. */
  lemma MapAppend<T, U>(f: T -> U, a: seq<T>, b: seq<T>)
    ensures Map(f, a + b) == Map(f, a) + Map(f, b)
  {
  }

  /** The concatenation of the parts, in order. */
  function Concat<T>(parts: seq<seq<T>>): seq<T>
  {
    if |parts| == 0 then [] else parts[0] + Concat(parts[1..])
  }

  /** The sum of the parts' lengths: the length of their concatenation. */
  function TotalLength<T>(parts: seq<seq<T>>): (n: nat)
    ensures n == |Concat(parts)|
  {
    if |parts| == 0 then 0 else |parts[0]| + TotalLength(parts[1..])
  }

  /** Mapping over one element and concatenating gives that element's image. */
  lemma ConcatMapOne<T, U>(f: T -> seq<U>, x: T)
    ensures Concat(Map(f, [x])) == f(x)
  {
    var parts := Map(f, [x]);
    assert parts[1..] == [];
    assert f(x) + [] == f(x);
  }

  /** Concatenation distributes over joining the lists of parts. */
  lemma {:induction false} ConcatAppend<T>(a: seq<seq<T>>, b: seq<seq<T>>)
    ensures Concat(a + b) == Concat(a) + Concat(b)
    decreases |a|
  {
    if |a| == 0 {
      assert a + b == b;
    } else {
      assert (a + b)[0] == a[0];
      assert (a + b)[1..] == a[1..] + b;
      ConcatAppend(a[1..], b);
    }
  }
}
