/** Python's ordering of `str` values (code point by code point, a proper prefix
    first) and the strictly ascending lists `sorted(set_of_strings)` produces. */
module Sorted {

  /** `a < b` on Python strings. */
  predicate Less(a: string, b: string)
    decreases |a|
  {
    if |a| == 0 then |b| > 0
    else if |b| == 0 then false
    else if a[0] != b[0] then a[0] < b[0]
    else Less(a[1..], b[1..])
  }

  lemma {:induction false} LessIrreflexive(a: string)
    ensures !Less(a, a)
    decreases |a|
  {
    if |a| > 0 {
      LessIrreflexive(a[1..]);
    }
  }

  lemma {:induction false} LessTransitive(a: string, b: string, c: string)
    requires Less(a, b) && Less(b, c)
    ensures Less(a, c)
    decreases |a|
  {
    if |a| > 0 && |b| > 0 && |c| > 0 && a[0] == b[0] && b[0] == c[0] {
      LessTransitive(a[1..], b[1..], c[1..]);
    }
  }

  /** Any two different strings are ordered one way or the other. */
  lemma {:induction false} LessTotal(a: string, b: string)
    requires a != b
    ensures Less(a, b) || Less(b, a)
    decreases |a|
  {
    if |a| > 0 && |b| > 0 && a[0] == b[0] {
      assert a == [a[0]] + a[1..] && b == [b[0]] + b[1..];
      LessTotal(a[1..], b[1..]);
    }
  }

  lemma LessAsymmetric(a: string, b: string)
    requires Less(a, b)
    ensures !Less(b, a)
  {
    if Less(b, a) {
      LessTransitive(a, b, a);
      LessIrreflexive(a);
    }
  }

  /** Strictly ascending, hence free of duplicates. */
  ghost predicate StrictlySorted(xs: seq<string>)
  {
    forall i, j | 0 <= i < j < |xs| :: Less(xs[i], xs[j])
  }

  /** Adds `v` to a strictly ascending list that stands for a set of strings. */
  function Insert(xs: seq<string>, v: string): (r: seq<string>)
    requires StrictlySorted(xs)
    ensures StrictlySorted(r)
    ensures forall x | x in r :: x in xs || x == v
    ensures v in r && forall x | x in xs :: x in r
    decreases |xs|
  {
    if |xs| == 0 then [v]
    else if v == xs[0] then xs
    else if Less(v, xs[0]) then
      assert forall j | 0 < j < |xs| :: Less(v, xs[j]) by {
        forall j | 0 < j < |xs| ensures Less(v, xs[j]) {
          LessTransitive(v, xs[0], xs[j]);
        }
      }
      [v] + xs
    else
      LessTotal(v, xs[0]);
      var rest := Insert(xs[1..], v);
      assert forall x | x in xs :: x == xs[0] || x in xs[1..];
      assert forall x | x in rest :: Less(xs[0], x);
      [xs[0]] + rest
  }

  /** The head of a strictly ascending list is below every other element. */
  lemma HeadIsLeast(xs: seq<string>, x: string)
    requires StrictlySorted(xs) && x in xs && x != xs[0]
    ensures Less(xs[0], x)
  {
    var i :| 0 <= i < |xs| && xs[i] == x;
  }

  /** A strictly ascending list is determined by its elements: any two with the
      same elements are equal, so a list with these properties IS `sorted(set)`. */
  lemma {:induction false} StrictlySortedUnique(xs: seq<string>, ys: seq<string>)
    requires StrictlySorted(xs) && StrictlySorted(ys)
    requires forall x :: x in xs <==> x in ys
    ensures xs == ys
    decreases |xs|
  {
    assert |xs| > 0 ==> xs[0] in ys;
    assert |ys| > 0 ==> ys[0] in xs;
    if |xs| > 0 && |ys| > 0 {
      if xs[0] != ys[0] {
        HeadIsLeast(xs, ys[0]);
        HeadIsLeast(ys, xs[0]);
        LessAsymmetric(xs[0], ys[0]);
      }
      forall x
        ensures x in xs[1..] <==> x in ys[1..]
      {
        assert x in xs <==> x == xs[0] || x in xs[1..];
        assert x in ys <==> x == ys[0] || x in ys[1..];
        if x in xs[1..] {
          var i :| 0 <= i < |xs| - 1 && xs[i + 1] == x;
          LessIrreflexive(xs[0]);
        }
        if x in ys[1..] {
          var i :| 0 <= i < |ys| - 1 && ys[i + 1] == x;
          LessIrreflexive(ys[0]);
        }
      }
      StrictlySortedUnique(xs[1..], ys[1..]);
      assert xs == [xs[0]] + xs[1..] && ys == [ys[0]] + ys[1..];
    }
  }
}
