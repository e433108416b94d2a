/** Facts about sequences shared by the ranking and the offset voting. */
module Sequences {

  /** A sequence without repeated elements. */
  predicate Distinct<T(==)>(s: seq<T>)
  {
    forall i, j :: 0 <= i < j < |s| ==> s[i] != s[j]
  }

  /** The multiset of t is that of t without position i, plus one copy of t[i]. */
  lemma MultisetSplit<T>(t: seq<T>, i: int)
    requires 0 <= i < |t|
    ensures multiset(t) == multiset(t[..i] + t[i + 1..]) + multiset{t[i]}
  {
    assert t == t[..i] + [t[i]] + t[i + 1..];
  }

  /** Taking the head of s and a matching element of t out of equal multisets leaves equal multisets. */
  lemma MultisetRemoveMatching<T>(s: seq<T>, t: seq<T>, i: int)
    requires multiset(s) == multiset(t) && s != [] && 0 <= i < |t| && t[i] == s[0]
    ensures multiset(s[1..]) == multiset(t[..i] + t[i + 1..])
  {
    var rest := t[..i] + t[i + 1..];
    MultisetSplit(s, 0);
    assert s[..0] + s[1..] == s[1..];
    MultisetSplit(t, i);
    forall y
      ensures multiset(s[1..])[y] == multiset(rest)[y]
    {
      assert multiset(s)[y] == multiset(t)[y];
    }
  }

  /** In a sequence without repeats every element occurs once. */
  lemma {:induction false} DistinctOccursOnce<T>(s: seq<T>, x: T)
    requires Distinct(s)
    ensures multiset(s)[x] == if x in s then 1 else 0
  {
    if s != [] {
      assert s == [s[0]] + s[1..];
      assert Distinct(s[1..]) by {
        forall i, j | 0 <= i < j < |s[1..]|
          ensures s[1..][i] != s[1..][j]
        {
          assert s[1..][i] == s[i + 1] && s[1..][j] == s[j + 1];
        }
      }
      assert s[0] !in s[1..] by {
        forall j | 0 <= j < |s[1..]|
          ensures s[1..][j] != s[0]
        {
          assert s[1..][j] == s[j + 1];
        }
      }
      DistinctOccursOnce(s[1..], x);
    }
  }

  /** Two sequences without repeats that hold the same elements are permutations of each other. */
  lemma SameElementsPermutation<T>(s: seq<T>, t: seq<T>)
    requires Distinct(s) && Distinct(t) && forall x :: x in s <==> x in t
    ensures multiset(s) == multiset(t) && |s| == |t|
  {
    forall x
      ensures multiset(s)[x] == multiset(t)[x]
    {
      DistinctOccursOnce(s, x);
      DistinctOccursOnce(t, x);
    }
    assert multiset(s) == multiset(t);
    assert |s| == |multiset(s)| == |multiset(t)| == |t|;
  }

  /** Some element of a non-empty set. */
  ghost function Pick<T>(elements: set<T>): (x: T)
    requires elements != {}
    ensures x in elements
  {
    var x :| x in elements; x
  }

  /**
   * An iteration order of a hash set or of a HashMap's keys: every element once, in
   * an order that is not fixed (each element is chosen by `:|`).
   */
  method Enumerate<T(==)>(elements: set<T>) returns (order: seq<T>)
    ensures Distinct(order) && forall x :: x in order <==> x in elements
  {
    order := [];
    var remaining := elements;
    while remaining != {}
      invariant Distinct(order)
      invariant forall x :: x in elements <==> x in order || x in remaining
      invariant forall x :: x in order ==> x !in remaining
      decreases remaining
    {
      ghost var w := Pick(remaining);
      var x :| x in remaining;
      order := order + [x];
      remaining := remaining - {x};
    }
  }
}
