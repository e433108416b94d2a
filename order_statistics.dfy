/**
 * Order statistics over integer sequences: counting, sortedness, an independent
 * reference sort, and the characterisation of "the k-th smallest element" that
 * the quickselect in MapRankDouble is proved against.
 */
module OrderStatistics {

  import opened Sequences

  /** Number of elements of s strictly below v, or at most v when inclusive. */
  function CountBelow(s: seq<int>, v: int, inclusive: bool): (n: nat)
    ensures n <= |s|
  {
    if s == [] then 0
    else (if s[0] < v || (inclusive && s[0] == v) then 1 else 0) + CountBelow(s[1..], v, inclusive)
  }

  predicate Sorted(s: seq<int>)
  {
    forall i, j :: 0 <= i < j < |s| ==> s[i] <= s[j]
  }

  /** s[k] is no smaller than everything before it and no larger than everything after it. */
  predicate PartitionedAt(s: seq<int>, k: int)
    requires 0 <= k < |s|
  {
    (forall i :: 0 <= i < k ==> s[i] <= s[k]) && (forall i :: k < i < |s| ==> s[k] <= s[i])
  }

  /**
   * v is the k-th smallest element (0-based) of s: fewer than k+1 elements lie below v
   * and more than k elements lie at or below v.
   */
  predicate IsOrderStatistic(s: seq<int>, k: int, v: int)
  {
    CountBelow(s, v, false) <= k < CountBelow(s, v, true)
  }

  lemma {:induction false} CountAppend(a: seq<int>, b: seq<int>, v: int, inclusive: bool)
    ensures CountBelow(a + b, v, inclusive) == CountBelow(a, v, inclusive) + CountBelow(b, v, inclusive)
  {
    if a == [] {
      assert a + b == b;
    } else {
      assert (a + b)[1..] == a[1..] + b;
      CountAppend(a[1..], b, v, inclusive);
    }
  }

  /** Taking out the element at i lowers the count by whether that element is counted. */
  lemma CountRemove(t: seq<int>, i: int, v: int, inclusive: bool)
    requires 0 <= i < |t|
    ensures CountBelow(t, v, inclusive)
            == CountBelow(t[..i] + t[i + 1..], v, inclusive) + (if t[i] < v || (inclusive && t[i] == v) then 1 else 0)
  {
    assert t == t[..i] + ([t[i]] + t[i + 1..]);
    CountAppend(t[..i], [t[i]] + t[i + 1..], v, inclusive);
    CountAppend(t[..i], t[i + 1..], v, inclusive);
    assert ([t[i]] + t[i + 1..])[1..] == t[i + 1..];
  }

  /** An element of the multiset of t occurs at some index of t. */
  lemma IndexOf(t: seq<int>, x: int) returns (i: int)
    requires x in multiset(t)
    ensures 0 <= i < |t| && t[i] == x
  {
    assert x in t;
    i :| 0 <= i < |t| && t[i] == x;
  }

  /** Counting depends only on the multiset of elements. */
  lemma {:induction false} CountPermutation(s: seq<int>, t: seq<int>, v: int, inclusive: bool)
    requires multiset(s) == multiset(t)
    ensures CountBelow(s, v, inclusive) == CountBelow(t, v, inclusive)
    decreases |s|
  {
    if s == [] {
      assert |t| == |multiset(t)| == 0;
    } else {
      var x := s[0];
      var i := IndexOf(t, x);
      var rest := t[..i] + t[i + 1..];
      MultisetRemoveMatching(s, t, i);
      CountPermutation(s[1..], rest, v, inclusive);
      CountRemove(t, i, v, inclusive);
      assert CountBelow(s, v, inclusive) == (if x < v || (inclusive && x == v) then 1 else 0) + CountBelow(s[1..], v, inclusive);
    }
  }

  lemma {:induction false} CountAll(s: seq<int>, v: int, inclusive: bool)
    requires forall i :: 0 <= i < |s| ==> s[i] < v || (inclusive && s[i] == v)
    ensures CountBelow(s, v, inclusive) == |s|
  {
    if s != [] {
      CountAll(s[1..], v, inclusive);
    }
  }

  lemma {:induction false} CountNone(s: seq<int>, v: int, inclusive: bool)
    requires forall i :: 0 <= i < |s| ==> !(s[i] < v || (inclusive && s[i] == v))
    ensures CountBelow(s, v, inclusive) == 0
  {
    if s != [] {
      CountNone(s[1..], v, inclusive);
    }
  }

  lemma {:induction false} CountMonotone(s: seq<int>, v: int, w: int)
    requires v < w
    ensures CountBelow(s, v, true) <= CountBelow(s, w, false)
  {
    if s != [] {
      CountMonotone(s[1..], v, w);
    }
  }

  /** An element that partitions its sequence is the order statistic of its position. */
  lemma PartitionedIsOrderStatistic(s: seq<int>, k: int)
    requires 0 <= k < |s| && PartitionedAt(s, k)
    ensures IsOrderStatistic(s, k, s[k])
  {
    var v := s[k];
    assert s == s[..k] + ([v] + s[k + 1..]);
    CountAppend(s[..k], [v] + s[k + 1..], v, false);
    CountAppend(s[..k], [v] + s[k + 1..], v, true);
    CountAppend([v], s[k + 1..], v, false);
    CountAppend([v], s[k + 1..], v, true);
    CountNone(s[k + 1..], v, false);
    CountAll(s[..k], v, true);
  }

  /** The k-th smallest element is unique. */
  lemma OrderStatisticUnique(s: seq<int>, k: int, v: int, w: int)
    requires IsOrderStatistic(s, k, v) && IsOrderStatistic(s, k, w)
    ensures v == w
  {
    if v < w {
      CountMonotone(s, v, w);
    } else if w < v {
      CountMonotone(s, w, v);
    }
  }

  /** A lower bound of a sorted sequence can be put in front of it. */
  lemma SortedCons(h: int, t: seq<int>)
    requires Sorted(t) && forall i :: 0 <= i < |t| ==> h <= t[i]
    ensures Sorted([h] + t)
  {
    forall i, j | 0 <= i < j < |[h] + t|
      ensures ([h] + t)[i] <= ([h] + t)[j]
    {
      if i > 0 {
        assert ([h] + t)[i] == t[i - 1];
      }
      assert ([h] + t)[j] == t[j - 1];
    }
  }

  /** Whatever is drawn from x and the tail of a sorted s lies at or above s's head, when x does. */
  lemma HeadBelowTail(x: int, s: seq<int>, tail: seq<int>)
    requires Sorted(s) && s != [] && s[0] < x
    requires forall i :: 0 <= i < |tail| ==> tail[i] == x || tail[i] in s[1..]
    ensures forall i :: 0 <= i < |tail| ==> s[0] <= tail[i]
  {
    forall i | 0 <= i < |tail|
      ensures s[0] <= tail[i]
    {
      if tail[i] != x {
        var j :| 0 <= j < |s[1..]| && s[1..][j] == tail[i];
        assert s[j + 1] == tail[i];
      }
    }
  }

  /** Insertion of x into a sorted sequence (the reference sort's step). */
  function Insert(x: int, s: seq<int>): (r: seq<int>)
    requires Sorted(s)
    ensures Sorted(r) && multiset(r) == multiset(s) + multiset{x}
    ensures forall i :: 0 <= i < |r| ==> r[i] == x || r[i] in s
  {
    if s == [] || x <= s[0] then
      SortedCons(x, s);
      [x] + s
    else
      var tail := Insert(x, s[1..]);
      assert s == [s[0]] + s[1..];
      HeadBelowTail(x, s, tail);
      SortedCons(s[0], tail);
      [s[0]] + tail
  }

  /** Reference sort (what java.util.Arrays.sort computes): the sorted permutation. */
  function SortAscending(s: seq<int>): (r: seq<int>)
    ensures Sorted(r) && multiset(r) == multiset(s) && |r| == |s|
  {
    if s == [] then []
    else
      assert s == [s[0]] + s[1..];
      var r := Insert(s[0], SortAscending(s[1..]));
      assert |r| == |multiset(r)|;
      r
  }

  /** The k-th element of the sorted permutation is the k-th order statistic. */
  lemma SortedIsOrderStatistic(s: seq<int>, k: int)
    requires 0 <= k < |s|
    ensures |SortAscending(s)| == |s|
    ensures IsOrderStatistic(s, k, SortAscending(s)[k])
  {
    var t := SortAscending(s);
    assert |t| == |multiset(t)| == |multiset(s)| == |s|;
    PartitionedIsOrderStatistic(t, k);
    CountPermutation(t, s, t[k], false);
    CountPermutation(t, s, t[k], true);
  }

  /**
   * A permutation of s partitioned at k holds at k exactly what a full sort of s
   * holds there: selection agrees with sorting.
   */
  lemma SelectionAgreesWithSort(s: seq<int>, t: seq<int>, k: int)
    requires multiset(s) == multiset(t) && 0 <= k < |t| && PartitionedAt(t, k)
    ensures |SortAscending(s)| == |s| == |t|
    ensures t[k] == SortAscending(s)[k]
  {
    assert |s| == |multiset(s)| == |multiset(t)| == |t|;
    PartitionedIsOrderStatistic(t, k);
    CountPermutation(t, s, t[k], false);
    CountPermutation(t, s, t[k], true);
    SortedIsOrderStatistic(s, k);
    OrderStatisticUnique(s, k, t[k], SortAscending(s)[k]);
  }
}
