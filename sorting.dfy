/**
 * Array.prototype.sort as the page builder uses it: an in-place sort of an
 * array under a comparison that is a total preorder.
 */
module Sorting {

  /** Every two values are comparable. */
  ghost predicate Total<T(!new)>(le: (T, T) -> bool)
  {
    forall x, y :: le(x, y) || le(y, x)
  }

  ghost predicate Transitive<T(!new)>(le: (T, T) -> bool)
  {
    forall x, y, z :: le(x, y) && le(y, z) ==> le(x, z)
  }

  ghost predicate SortedBy<T>(s: seq<T>, le: (T, T) -> bool)
  {
    forall i, j :: 0 <= i < j < |s| ==> le(s[i], s[j])
  }

  ghost predicate Distinct<T>(s: seq<T>)
  {
    forall i, j :: 0 <= i < j < |s| ==> s[i] != s[j]
  }

  /** Insertion sort: each element in turn is moved into place among the
      sorted ones before it. */
  method SortBy<T(!new)>(a: array<T>, le: (T, T) -> bool)
    requires Total(le) && Transitive(le)
    modifies a
    ensures SortedBy(a[..], le)
    ensures multiset(a[..]) == multiset(old(a[..]))
  {
    var i := 0;
    while i < a.Length
      invariant 0 <= i <= a.Length
      invariant forall p, q :: 0 <= p < q < i ==> le(a[p], a[q])
      invariant multiset(a[..]) == multiset(old(a[..]))
    {
      InsertLast(a, i, le);
      i := i + 1;
    }
  }

  /** Moves `a[i]` left by adjacent swaps past the elements that are
      strictly greater, so that `a[..i + 1]` is sorted; equal elements keep
      their order. */
  method InsertLast<T(!new)>(a: array<T>, i: nat, le: (T, T) -> bool)
    requires Total(le) && Transitive(le)
    requires i < a.Length
    requires forall p, q :: 0 <= p < q < i ==> le(a[p], a[q])
    modifies a
    ensures forall p, q :: 0 <= p < q <= i ==> le(a[p], a[q])
    ensures multiset(a[..]) == multiset(old(a[..]))
    ensures a[i + 1..] == old(a[i + 1..])
  {
    var j := i;
    while j > 0 && !le(a[j - 1], a[j])
      invariant 0 <= j <= i
      invariant forall p, q :: 0 <= p < q <= i && p != j && q != j ==> le(a[p], a[q])
      invariant forall q :: j < q <= i ==> le(a[j], a[q])
      invariant multiset(a[..]) == multiset(old(a[..]))
      invariant a[i + 1..] == old(a[i + 1..])
    {
      a[j - 1], a[j] := a[j], a[j - 1];
      j := j - 1;
    }
  }

  /** A sequence without repetitions holds each value at most once. */
  lemma {:induction false} DistinctMultiplicity<T>(s: seq<T>, x: T)
    requires Distinct(s)
    ensures multiset(s)[x] <= 1
  {
    if s != [] {
      var init := s[..|s| - 1];
      assert s == init + [s[|s| - 1]];
      assert Distinct(init);
      DistinctMultiplicity(init, x);
      if x == s[|s| - 1] {
        assert x !in init;
      }
    }
  }

  /** A permutation of a sequence without repetitions has none either. */
  lemma DistinctPermutation<T>(s: seq<T>, t: seq<T>)
    requires Distinct(s) && multiset(s) == multiset(t)
    ensures Distinct(t)
  {
    forall i, j | 0 <= i < j < |t|
      ensures t[i] != t[j]
    {
      DistinctMultiplicity(s, t[i]);
      assert t == t[..j] + [t[j]] + t[j + 1..];
      assert t[i] in t[..j];
      assert multiset(t[..j])[t[i]] >= 1;
      assert multiset(t)[t[i]] >= multiset(t[..j])[t[i]] + multiset([t[j]])[t[i]];
    }
  }
}
