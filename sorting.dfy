/** `sorted(set(xs))` for strings: Python orders strings lexicographically by code point,
    and Dafny's `char` order is code-point order. */
module Sorting {

  /** Python's `a < b` on strings. */
  predicate StrLess(a: string, b: string)
    decreases |a|
  {
    if a == [] then b != []
    else if b == [] then false
    else if a[0] != b[0] then a[0] < b[0]
    else StrLess(a[1..], b[1..])
  }

  lemma {:induction false} StrLessIrreflexive(a: string)
    ensures !StrLess(a, a)
    decreases |a|
  {
    if a != [] {
      StrLessIrreflexive(a[1..]);
    }
  }

  lemma {:induction false} StrLessTransitive(a: string, b: string, c: string)
    requires StrLess(a, b) && StrLess(b, c)
    ensures StrLess(a, c)
    decreases |a|
  {
    if a != [] && a[0] == b[0] && b[0] == c[0] {
      StrLessTransitive(a[1..], b[1..], c[1..]);
    }
  }

  /** Any two different strings are ordered one way or the other. */
  lemma {:induction false} StrLessTotal(a: string, b: string)
    requires a != b
    ensures StrLess(a, b) || StrLess(b, a)
    decreases |a|
  {
    if a != [] && b != [] && a[0] == b[0] {
      assert a == [a[0]] + a[1..] && b == [b[0]] + b[1..];
      StrLessTotal(a[1..], b[1..]);
    }
  }

  /** Ascending with no element repeated. */
  predicate StrictlySorted(xs: seq<string>) {
    forall p, q :: 0 <= p < q < |xs| ==> StrLess(xs[p], xs[q])
  }

  /** Insert `x` into a strictly sorted sequence unless it is already there. */
  function InsertSorted(xs: seq<string>, x: string): (r: seq<string>)
    requires StrictlySorted(xs)
    ensures StrictlySorted(r)
    ensures forall y :: y in r <==> y in xs || y == x
    decreases |xs|
  {
    if xs == [] then [x]
    else if x == xs[0] then xs
    else if StrLess(x, xs[0]) then
      forall q | 0 < q < |xs| ensures StrLess(x, xs[q]) {
        StrLessTransitive(x, xs[0], xs[q]);
      }
      [x] + xs
    else
      StrLessTotal(x, xs[0]);
      var rest := InsertSorted(xs[1..], x);
      assert forall y :: y in xs[1..] ==> StrLess(xs[0], y);
      [xs[0]] + rest
  }

  /** `sorted(set(xs))`: the distinct elements of `xs` in ascending order. */
  function SortedSet(xs: seq<string>): (r: seq<string>)
    ensures StrictlySorted(r)
    ensures forall y :: y in r <==> y in xs
    decreases |xs|
  {
    if xs == [] then []
    else InsertSorted(SortedSet(xs[..|xs| - 1]), xs[|xs| - 1])
  }

  /** A strictly sorted sequence repeats nothing: it is as long as the set of its elements. */
  lemma {:induction false} StrictlySortedDistinct(xs: seq<string>)
    requires StrictlySorted(xs)
    ensures |set y | y in xs| == |xs|
    decreases |xs|
  {
    if xs != [] {
      var rest := xs[1..];
      StrictlySortedDistinct(rest);
      assert xs[0] !in rest by {
        StrLessIrreflexive(xs[0]);
      }
      assert (set y | y in xs) == {xs[0]} + (set y | y in rest);
    }
  }
}
