/**
 * Ordered listings and duplicate-free sequences: what an `ORDER BY` and
 * the rows of a many-to-many relation are in this model.
 */
module Sequences {

  ghost predicate Total<T(!new)>(le: (T, T) -> bool) {
    forall x, y :: le(x, y) || le(y, x)
  }

  ghost predicate Transitive<T(!new)>(le: (T, T) -> bool) {
    forall x, y, z :: le(x, y) && le(y, z) ==> le(x, z)
  }

  predicate Sorted<T>(xs: seq<T>, le: (T, T) -> bool) {
    forall i, j :: 0 <= i < j < |xs| ==> le(xs[i], xs[j])
  }

  /** Inserts `x` into a sorted sequence, before the first element it may precede. */
  function Insert<T(!new)>(x: T, xs: seq<T>, le: (T, T) -> bool): (r: seq<T>)
    requires Total(le) && Transitive(le) && Sorted(xs, le)
    ensures Sorted(r, le)
    ensures multiset(r) == multiset(xs) + multiset{x}
  {
    if xs == [] then [x]
    else if le(x, xs[0]) then [x] + xs
    else
      var rest := Insert(x, xs[1..], le);
      assert xs == [xs[0]] + xs[1..];
      assert forall y :: y in multiset(rest) ==> le(xs[0], y) by {
        forall y | y in multiset(rest) ensures le(xs[0], y) {
          if y != x {
            assert y in xs[1..];
            var k :| 0 <= k < |xs[1..]| && xs[1..][k] == y;
            assert xs[k + 1] == y;
          }
        }
      }
      assert forall j :: 0 <= j < |rest| ==> rest[j] in multiset(rest);
      [xs[0]] + rest
  }

  /** Insertion sort: a sorted permutation of `xs`. */
  function SortBy<T(!new)>(xs: seq<T>, le: (T, T) -> bool): (r: seq<T>)
    requires Total(le) && Transitive(le)
    ensures Sorted(r, le)
    ensures multiset(r) == multiset(xs)
  {
    if xs == [] then []
    else
      assert xs == [xs[0]] + xs[1..];
      Insert(xs[0], SortBy(xs[1..], le), le)
  }

  predicate Distinct<T(==)>(xs: seq<T>) {
    forall i, j :: 0 <= i < j < |xs| ==> xs[i] != xs[j]
  }

  /** Drops every repeated element, keeping each first occurrence in place. */
  function Dedup<T(==,!new)>(xs: seq<T>): (r: seq<T>)
    ensures Distinct(r)
    ensures forall x :: x in r <==> x in xs
    ensures Distinct(xs) ==> r == xs
  {
    if xs == [] then []
    else
      var front := xs[..|xs| - 1];
      var last := xs[|xs| - 1];
      var d := Dedup(front);
      assert xs == front + [last];
      if last in d then d else d + [last]
  }

  /** The sequence with every occurrence of `y` taken out, the rest in order. */
  function Remove<T(==,!new)>(xs: seq<T>, y: T): (r: seq<T>)
    ensures forall x :: x in r <==> x in xs && x != y
    ensures |r| <= |xs|
    ensures Distinct(xs) ==> Distinct(r)
  {
    if xs == [] then []
    else
      var rest := Remove(xs[1..], y);
      assert Distinct(xs) ==> xs[0] !in xs[1..];
      if xs[0] == y then rest else [xs[0]] + rest
  }
}
