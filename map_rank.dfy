/**
 * MapRankDouble: ranking the keys of a map by their values. The values are only
 * ever compared, so they are modelled as int. getOrderedValue selects the k-th
 * smallest value with an in-place recursive Hoare-partition quickselect (locate);
 * getOrderedKeyList keeps the keys on the right side of that pass value and emits
 * them in value order.
 */
module MapRankDouble {
  import opened Results
  import opened Sequences
  import opened OrderStatistics

  /** array[i] and array[j] trade places. */
  method Swap(a: array<int>, i: int, j: int)
    requires 0 <= i < a.Length && 0 <= j < a.Length
    modifies a
    ensures a[..] == old(a[..])[i := old(a[j])][j := old(a[i])]
    ensures multiset(a[..]) == old(multiset(a[..]))
  {
    var t := a[i];
    a[i] := a[j];
    a[j] := t;
  }

  /** Within [left, right], s[k] is no smaller than what precedes it and no larger than what follows it. */
  ghost predicate PartitionedWithin(s: seq<int>, left: int, right: int, k: int)
    requires 0 <= left <= k <= right < |s|
  {
    (forall i :: left <= i < k ==> s[i] <= s[k]) && (forall i :: k < i <= right ==> s[k] <= s[i])
  }

  /**
   * One round of the partition loop of locate: i scans up from i0 + 1 while
   * array[i] < s, j scans down from j0 - 1 while array[j] > s; unless the scans
   * have met (i >= j), the out-of-place pair is swapped.
   */
  method PartitionRound(a: array<int>, left: int, right: int, ghost mid: int, s: int, i0: int, j0: int)
    returns (i: int, j: int, met: bool)
    requires 0 <= left <= mid <= right < a.Length
    requires left - 1 <= i0 < j0 <= right + 1
    requires (i0 == left - 1) == (j0 == right + 1)
    requires i0 == left - 1 ==> a[mid] == s
    requires forall k :: left <= k <= i0 ==> a[k] <= s
    requires forall k :: j0 <= k <= right ==> s <= a[k]
    modifies a
    ensures multiset(a[..]) == old(multiset(a[..]))
    ensures left <= i <= right && left <= j <= right && i0 < i && j < j0
    ensures forall k :: 0 <= k < a.Length && k != i && k != j ==> a[k] == old(a[k])
    ensures met ==> j <= i <= j + 1
    ensures met ==> (forall k :: left <= k <= j ==> a[k] <= s) && (forall k :: i <= k <= right ==> s <= a[k])
    ensures !met ==> i < j
    ensures !met ==> (forall k :: left <= k <= i ==> a[k] <= s) && (forall k :: j <= k <= right ==> s <= a[k])
  {
    // a value >= s at or after i0 + 1 stops the upward scan, one <= s at or before j0 - 1 the downward scan
    ghost var stopUp := if i0 == left - 1 then mid else j0;
    ghost var stopDown := if i0 == left - 1 then mid else i0;
    i := i0 + 1;
    while a[i] < s
      invariant i0 < i <= stopUp
      invariant forall k :: i0 < k < i ==> a[k] < s
      decreases stopUp - i
    {
      i := i + 1;
    }
    j := j0 - 1;
    while a[j] > s
      invariant stopDown <= j < j0
      invariant forall k :: j < k < j0 ==> a[k] > s
      decreases j - stopDown
    {
      j := j - 1;
    }
    met := i >= j;
    if met {
      // the upward scan cannot pass a value above s, nor one from the upper part
      assert i <= j + 1 by {
        if j + 1 < j0 {
          assert a[j + 1] > s;
        } else if j0 <= right {
          assert s <= a[j0];
        }
      }
    } else {
      Swap(a, i, j);
    }
  }

  /**
   * The partition loop of locate: pivot s = array[(left + right) / 2]; rounds of
   * scanning and swapping go on until the scans meet. The scans never leave [left, right].
   */
  method HoarePartition(a: array<int>, left: int, right: int) returns (i: int, j: int, s: int)
    requires 0 <= left < right < a.Length
    modifies a
    ensures multiset(a[..]) == old(multiset(a[..]))
    ensures forall k :: 0 <= k < a.Length && (k < left || right < k) ==> a[k] == old(a[k])
    ensures left <= j <= i <= j + 1 && i <= right
    ensures forall k :: left <= k <= j ==> a[k] <= s
    ensures forall k :: i <= k <= right ==> s <= a[k]
  {
    var mid := (left + right) / 2;
    s := a[mid];
    i := left - 1;
    j := right + 1;
    while true
      invariant left - 1 <= i < j <= right + 1
      invariant (i == left - 1) == (j == right + 1)
      invariant i == left - 1 ==> a[mid] == s
      invariant forall k :: left <= k <= i ==> a[k] <= s
      invariant forall k :: j <= k <= right ==> s <= a[k]
      invariant multiset(a[..]) == old(multiset(a[..]))
      invariant forall k :: 0 <= k < a.Length && (k < left || right < k) ==> a[k] == old(a[k])
      decreases j - i
    {
      var met;
      i, j, met := PartitionRound(a, left, right, mid, s, i, j);
      if met {
        break;
      }
    }
  }

  /**
   * locate(array, left, right, index): rearranges array[left..right] by swaps only,
   * so that, when index lies in the range, array[index] holds what a sort of the
   * range would put there, with no larger value before it and no smaller one after it.
   */
  method Locate(a: array<int>, left: int, right: int, index: int)
    requires 0 <= left <= right + 1 <= a.Length
    modifies a
    ensures multiset(a[..]) == old(multiset(a[..]))
    ensures forall k :: 0 <= k < a.Length && (k < left || right < k) ==> a[k] == old(a[k])
    ensures left <= index <= right ==> PartitionedWithin(a[..], left, right, index)
    decreases right - left
  {
    if right == left {
      return;
    }
    if left < right {
      var i, j, s := HoarePartition(a, left, right);
      ghost var b := a[..];
      if i > index {
        Locate(a, left, i - 1, index);
        BoundSurvivesPermutation(b, a[..], left, i, s, true);
      } else {
        Locate(a, j + 1, right, index);
        BoundSurvivesPermutation(b, a[..], j + 1, right + 1, s, false);
      }
    }
  }

  /** Equal sums with equal outer parts have equal middle parts. */
  lemma MultisetCancel(p: multiset<int>, x: multiset<int>, y: multiset<int>, q: multiset<int>)
    requires p + x + q == p + y + q
    ensures x == y
  {
    forall e
      ensures x[e] == y[e]
    {
      assert (p + x + q)[e] == (p + y + q)[e];
    }
  }

  /** A permutation that agrees with b outside [lo, hi) permutes b[lo..hi]. */
  lemma PermutedSlice(b: seq<int>, c: seq<int>, lo: int, hi: int)
    requires 0 <= lo <= hi <= |b| == |c| && multiset(b) == multiset(c)
    requires forall k :: 0 <= k < |b| && (k < lo || hi <= k) ==> b[k] == c[k]
    ensures multiset(b[lo..hi]) == multiset(c[lo..hi])
  {
    var prefix, suffix := b[..lo], b[hi..];
    assert c[..lo] == prefix && c[hi..] == suffix;
    assert b == prefix + b[lo..hi] + suffix;
    assert c == prefix + c[lo..hi] + suffix;
    MultisetCancel(multiset(prefix), multiset(b[lo..hi]), multiset(c[lo..hi]), multiset(suffix));
  }

  /**
   * When c is a permutation of b that agrees with b outside [lo, hi), a bound that
   * every element of b[lo..hi] respects is respected by c[lo..hi] too.
   */
  lemma BoundSurvivesPermutation(b: seq<int>, c: seq<int>, lo: int, hi: int, s: int, upper: bool)
    requires 0 <= lo <= hi <= |b| == |c| && multiset(b) == multiset(c)
    requires forall k :: 0 <= k < |b| && (k < lo || hi <= k) ==> b[k] == c[k]
    requires forall k :: lo <= k < hi ==> if upper then b[k] <= s else s <= b[k]
    ensures forall k :: lo <= k < hi ==> if upper then c[k] <= s else s <= c[k]
  {
    PermutedSlice(b, c, lo, hi);
    forall k | lo <= k < hi
      ensures if upper then c[k] <= s else s <= c[k]
    {
      assert c[k] == c[lo..hi][k - lo];
      assert c[k] in multiset(b[lo..hi]);
      var k' :| 0 <= k' < hi - lo && b[lo..hi][k'] == c[k];
      assert b[lo + k'] == c[k];
    }
  }

  /**
   * getOrderedValue(array, index): locate over the whole array, then read array[index];
   * an index outside the array raises ArrayIndexOutOfBoundsException.
   */
  method GetOrderedValue(a: array<int>, index: int) returns (r: Result<int>)
    modifies a
    ensures multiset(a[..]) == old(multiset(a[..]))
    ensures r.Failure? <==> !(0 <= index < a.Length)
    ensures r.Failure? ==> r.error == IndexOutOfBounds
    ensures r.Success? ==> r.value == a[index] && r.value == SortAscending(old(a[..]))[index]
    ensures r.Success? ==> PartitionedAt(a[..], index)
  {
    Locate(a, 0, a.Length - 1, index);
    if 0 <= index < a.Length {
      assert PartitionedAt(a[..], index);
      SelectionAgreesWithSort(old(a[..]), a[..], index);
      r := Success(a[index]);
    } else {
      r := Failure(IndexOutOfBounds);
    }
  }

  /** The values of the keys ks, in the order of ks. */
  function Values<K(==, !new)>(m: map<K, int>, ks: seq<K>): (vs: seq<int>)
    requires forall k :: k in ks ==> k in m
  {
    seq(|ks|, i requires 0 <= i < |ks| => m[ks[i]])
  }

  /** order lists every key of m exactly once: an iteration order of the map's entry set. */
  ghost predicate IsEnumeration<K(!new)>(order: seq<K>, m: map<K, int>)
  {
    Distinct(order) && forall k :: k in m <==> k in order
  }

  lemma {:induction false} EnumerationSize<K(!new)>(order: seq<K>, m: map<K, int>)
    requires IsEnumeration(order, m)
    ensures |order| == |m|
    decreases |order|
  {
    if order == [] {
      assert m.Keys == {};
    } else {
      var k := order[0];
      var rest := m - {k};
      assert rest.Keys == m.Keys - {k};
      assert IsEnumeration(order[1..], rest) by {
        forall x
          ensures x in rest <==> x in order[1..]
        {
          assert x in order <==> x == order[0] || x in order[1..];
        }
      }
      EnumerationSize(order[1..], rest);
    }
  }

  /** The keep condition of getOrderedKeyList: at most the pass value ascending, at least it descending. */
  predicate Passes(value: int, passValue: int, ascending: bool)
  {
    if ascending then value <= passValue else value >= passValue
  }

  /** The keys of ks whose value passes, in the order of ks. */
  function FilterPassing<K(==, !new)>(m: map<K, int>, ks: seq<K>, passValue: int, ascending: bool): (passed: seq<K>)
    requires forall k :: k in ks ==> k in m
    decreases |ks|
  {
    if ks == [] then []
    else
      var last := ks[|ks| - 1];
      var init := ks[..|ks| - 1];
      assert forall k :: k in init ==> k in ks;
      FilterPassing(m, init, passValue, ascending) + (if Passes(m[last], passValue, ascending) then [last] else [])
  }

  /** A key is kept exactly when it is one of ks and its value passes. */
  lemma {:induction false} FilterPassingMembers<K(!new)>(m: map<K, int>, ks: seq<K>, passValue: int, ascending: bool)
    requires forall k :: k in ks ==> k in m
    ensures forall k :: k in FilterPassing(m, ks, passValue, ascending) <==> k in ks && Passes(m[k], passValue, ascending)
    decreases |ks|
  {
    if ks != [] {
      var last := ks[|ks| - 1];
      var init := ks[..|ks| - 1];
      assert forall k :: k in ks <==> k in init || k == last;
      FilterPassingMembers(m, init, passValue, ascending);
    }
  }

  /** Filtering distinct keys keeps them distinct. */
  lemma {:induction false} FilterPassingDistinct<K(!new)>(m: map<K, int>, ks: seq<K>, passValue: int, ascending: bool)
    requires Distinct(ks) && forall k :: k in ks ==> k in m
    ensures Distinct(FilterPassing(m, ks, passValue, ascending))
    decreases |ks|
  {
    if ks != [] {
      var last := ks[|ks| - 1];
      var init := ks[..|ks| - 1];
      assert forall k :: k in init ==> k in ks;
      FilterPassingDistinct(m, init, passValue, ascending);
      FilterPassingMembers(m, init, passValue, ascending);
      assert last !in init;
    }
  }

  /** How many of the values vs pass. */
  function PassCount(vs: seq<int>, passValue: int, ascending: bool): int
  {
    if ascending then CountBelow(vs, passValue, true) else |vs| - CountBelow(vs, passValue, false)
  }

  lemma {:induction false} FilterPassingCount<K(!new)>(m: map<K, int>, ks: seq<K>, passValue: int, ascending: bool)
    requires forall k :: k in ks ==> k in m
    ensures |FilterPassing(m, ks, passValue, ascending)| == PassCount(Values(m, ks), passValue, ascending)
    decreases |ks|
  {
    if ks != [] {
      var last := ks[|ks| - 1];
      var init := ks[..|ks| - 1];
      FilterPassingCount(m, init, passValue, ascending);
      assert Values(m, ks) == Values(m, init) + [m[last]];
      CountAppend(Values(m, init), [m[last]], passValue, true);
      CountAppend(Values(m, init), [m[last]], passValue, false);
    }
  }

  /** Filtering one more key appends it when it passes. */
  lemma FilterPassingSnoc<K(!new)>(m: map<K, int>, ks: seq<K>, key: K, passValue: int, ascending: bool)
    requires key in m && forall k :: k in ks ==> k in m
    ensures forall k :: k in ks + [key] ==> k in m
    ensures FilterPassing(m, ks + [key], passValue, ascending)
            == FilterPassing(m, ks, passValue, ascending) + (if Passes(m[key], passValue, ascending) then [key] else [])
  {
    assert (ks + [key])[..|ks|] == ks;
  }

  /** The values of one more key end with its value. */
  lemma ValuesSnoc<K(!new)>(m: map<K, int>, ks: seq<K>, key: K)
    requires key in m && forall k :: k in ks ==> k in m
    ensures forall k :: k in ks + [key] ==> k in m
    ensures Values(m, ks + [key]) == Values(m, ks) + [m[key]]
  {
  }

  /**
   * The second pass over the entry set: every entry whose value passes goes into
   * passedMap (here: its keys, in iteration order) and its value into valueList.
   */
  method CollectPassed<K(==, !new)>(m: map<K, int>, order: seq<K>, passValue: int, ascending: bool)
    returns (passed: seq<K>, valueList: seq<int>)
    requires forall k :: k in order ==> k in m
    ensures passed == FilterPassing(m, order, passValue, ascending)
    ensures forall k :: k in passed ==> k in m
    ensures valueList == Values(m, passed)
  {
    passed, valueList := [], [];
    var c := 0;
    while c < |order|
      invariant 0 <= c <= |order|
      invariant forall k :: k in order[..c] ==> k in m
      invariant forall k :: k in passed ==> k in m
      invariant passed == FilterPassing(m, order[..c], passValue, ascending)
      invariant valueList == Values(m, passed)
    {
      var key := order[c];
      var value := m[key];
      assert order[..c + 1] == order[..c] + [key];
      FilterPassingSnoc(m, order[..c], key, passValue, ascending);
      if (ascending && value <= passValue) || (!ascending && value >= passValue) {
        ValuesSnoc(m, passed, key);
        passed := passed + [key];
        valueList := valueList + [value];
      }
      c := c + 1;
    }
    assert order[..|order|] == order;
  }

  /** Position in the sorted value list of the t-th visited value: from the front ascending, from the back descending. */
  function VisitPos(ascending: bool, length: int, t: int): int
  {
    if ascending then t else length - 1 - t
  }

  /** The part of the sorted value list not yet visited after `visited` steps. */
  function Unvisited(listArr: seq<int>, ascending: bool, visited: int): seq<int>
    requires 0 <= visited <= |listArr|
  {
    if ascending then listArr[visited..] else listArr[..|listArr| - visited]
  }

  /** The values of ks are those of ks without position p, plus the value at p. */
  lemma ValuesSplit<K(!new)>(m: map<K, int>, ks: seq<K>, p: int)
    requires 0 <= p < |ks| && forall k :: k in ks ==> k in m
    ensures forall k :: k in ks[..p] + ks[p + 1..] ==> k in m
    ensures multiset(Values(m, ks)) == multiset(Values(m, ks[..p] + ks[p + 1..])) + multiset{m[ks[p]]}
  {
    assert ks == ks[..p] + [ks[p]] + ks[p + 1..];
    var vs := Values(m, ks);
    assert Values(m, ks[..p] + ks[p + 1..]) == vs[..p] + vs[p + 1..];
    MultisetSplit(vs, p);
  }

  /** Keys that are permutations of each other have values that are permutations of each other. */
  lemma {:induction false} ValuesPermutation<K(!new)>(m: map<K, int>, s: seq<K>, t: seq<K>)
    requires multiset(s) == multiset(t)
    requires (forall k :: k in s ==> k in m) && forall k :: k in t ==> k in m
    ensures multiset(Values(m, s)) == multiset(Values(m, t))
    decreases |s|
  {
    if s == [] {
      assert |t| == |multiset(t)| == 0;
    } else {
      assert s[0] in t by {
        assert s[0] in multiset(s);
      }
      var i :| 0 <= i < |t| && t[i] == s[0];
      MultisetRemoveMatching(s, t, i);
      ValuesSplit(m, s, 0);
      assert s[..0] + s[1..] == s[1..];
      ValuesSplit(m, t, i);
      ValuesPermutation(m, s[1..], t[..i] + t[i + 1..]);
    }
  }

  lemma UnvisitedStep(listArr: seq<int>, ascending: bool, visited: int)
    requires 0 <= visited < |listArr|
    ensures listArr[VisitPos(ascending, |listArr|, visited)] in Unvisited(listArr, ascending, visited)
    ensures multiset(Unvisited(listArr, ascending, visited + 1))
         == multiset(Unvisited(listArr, ascending, visited)) - multiset{listArr[VisitPos(ascending, |listArr|, visited)]}
  {
    var L := |listArr|;
    if ascending {
      assert listArr[visited..] == [listArr[visited]] + listArr[visited + 1..];
    } else {
      assert listArr[..L - visited] == listArr[..L - visited - 1] + [listArr[L - visited - 1]];
    }
  }

  /** Every value still unvisited lies beyond the value just visited. */
  lemma UnvisitedBeyond(listArr: seq<int>, ascending: bool, visited: int, x: int)
    requires Sorted(listArr) && 0 <= visited < |listArr|
    requires x in Unvisited(listArr, ascending, visited + 1)
    ensures if ascending then listArr[VisitPos(ascending, |listArr|, visited)] <= x
            else x <= listArr[VisitPos(ascending, |listArr|, visited)]
  {
    var L := |listArr|;
    if ascending {
      var u :| 0 <= u < L - visited - 1 && listArr[visited + 1..][u] == x;
      assert listArr[visited + 1 + u] == x;
    } else {
      var u :| 0 <= u < L - visited - 1 && listArr[..L - visited - 1][u] == x;
      assert listArr[u] == x;
    }
  }

  /** keyList and rem split the passed keys between them. */
  ghost predicate EmitSplit<K(!new)>(passed: seq<K>, rem: seq<K>, keyList: seq<K>)
  {
    && |keyList| + |rem| == |passed|
    && Distinct(rem) && Distinct(keyList)
    && (forall k :: k in rem ==> k !in keyList)
    && (forall k :: k in passed <==> k in keyList || k in rem)
  }

  /** rem holds exactly the values not yet visited. */
  ghost predicate EmitValues<K(!new)>(m: map<K, int>, listArr: seq<int>, ascending: bool, rem: seq<K>, visited: int)
    requires forall k :: k in rem ==> k in m
    requires 0 <= visited <= |listArr|
  {
    multiset(Values(m, rem)) == multiset(Unvisited(listArr, ascending, visited))
  }

  /** The t-th emitted key has the t-th visited value. */
  ghost predicate EmitVisited<K(!new)>(m: map<K, int>, listArr: seq<int>, ascending: bool, keyList: seq<K>)
    requires forall k :: k in keyList ==> k in m
    requires |keyList| <= |listArr|
  {
    forall t :: 0 <= t < |keyList| ==> m[keyList[t]] == listArr[VisitPos(ascending, |listArr|, t)]
  }

  /** Every remaining key lies beyond all visited values. */
  ghost predicate EmitBeyond<K(!new)>(m: map<K, int>, listArr: seq<int>, ascending: bool, rem: seq<K>, visited: int)
    requires forall k :: k in rem ==> k in m
    requires 0 <= visited <= |listArr|
  {
    forall k, t :: k in rem && 0 <= t < visited ==>
      if ascending then listArr[VisitPos(ascending, |listArr|, t)] <= m[k] else m[k] <= listArr[VisitPos(ascending, |listArr|, t)]
  }

  /** The state of the emission loop after |keyList| steps. */
  ghost predicate EmitInvariant<K(!new)>(m: map<K, int>, passed: seq<K>, listArr: seq<int>, ascending: bool,
                                         rem: seq<K>, keyList: seq<K>)
    requires forall k :: k in passed ==> k in m
  {
    && |keyList| <= |listArr|
    && EmitSplit(passed, rem, keyList)
    && (forall k :: k in keyList ==> k in m)
    && (forall k :: k in rem ==> k in m)
    && EmitValues(m, listArr, ascending, rem, |keyList|)
    && EmitVisited(m, listArr, ascending, keyList)
    && EmitBeyond(m, listArr, ascending, rem, |keyList|)
  }

  /** The value to visit next is held by some remaining key. */
  lemma EmitTargetPresent<K(!new)>(m: map<K, int>, passed: seq<K>, listArr: seq<int>, ascending: bool,
                                   rem: seq<K>, keyList: seq<K>)
    requires forall k :: k in passed ==> k in m
    requires EmitInvariant(m, passed, listArr, ascending, rem, keyList) && |keyList| < |listArr|
    ensures exists q :: 0 <= q < |rem| && m[rem[q]] == listArr[VisitPos(ascending, |listArr|, |keyList|)]
  {
    UnvisitedStep(listArr, ascending, |keyList|);
    var target := listArr[VisitPos(ascending, |listArr|, |keyList|)];
    assert target in multiset(Values(m, rem));
    var q :| 0 <= q < |rem| && Values(m, rem)[q] == target;
  }

  /** Removing position p of a duplicate-free sequence removes exactly its element. */
  lemma RemoveAt<K>(s: seq<K>, p: int)
    requires Distinct(s) && 0 <= p < |s|
    ensures Distinct(s[..p] + s[p + 1..]) && s[p] !in s[..p] + s[p + 1..]
    ensures forall k :: k in s <==> k in s[..p] + s[p + 1..] || k == s[p]
  {
    var rest := s[..p] + s[p + 1..];
    forall i | 0 <= i < |rest|
      ensures rest[i] == s[if i < p then i else i + 1]
    {
    }
    assert forall k :: k in s <==> k in rest || k == s[p] by {
      assert s == s[..p] + [s[p]] + s[p + 1..];
    }
  }

  /** After visiting n + 1 values, every key whose value is still unvisited lies beyond the n-th visited value. */
  lemma RestBeyondVisited<K(!new)>(m: map<K, int>, listArr: seq<int>, ascending: bool, n: int, rest: seq<K>)
    requires forall k :: k in rest ==> k in m
    requires Sorted(listArr) && 0 <= n < |listArr|
    requires multiset(Values(m, rest)) == multiset(Unvisited(listArr, ascending, n + 1))
    ensures forall k :: k in rest ==>
              if ascending then listArr[VisitPos(ascending, |listArr|, n)] <= m[k]
              else m[k] <= listArr[VisitPos(ascending, |listArr|, n)]
  {
    forall k | k in rest
      ensures if ascending then listArr[VisitPos(ascending, |listArr|, n)] <= m[k]
              else m[k] <= listArr[VisitPos(ascending, |listArr|, n)]
    {
      var i :| 0 <= i < |rest| && rest[i] == k;
      assert Values(m, rest)[i] == m[k];
      assert m[k] in multiset(Values(m, rest));
      UnvisitedBeyond(listArr, ascending, n, m[k]);
    }
  }

  /** Emitting and removing position p of rem keeps the split. */
  lemma EmitSplitStep<K(!new)>(passed: seq<K>, rem: seq<K>, keyList: seq<K>, p: int)
    requires EmitSplit(passed, rem, keyList) && 0 <= p < |rem|
    ensures EmitSplit(passed, rem[..p] + rem[p + 1..], keyList + [rem[p]])
  {
    var key := rem[p];
    var keys' := keyList + [key];
    RemoveAt(rem, p);
    assert key in rem && key !in keyList;
    assert Distinct(keys') by {
      forall i, j | 0 <= i < j < |keys'|
        ensures keys'[i] != keys'[j]
      {
        assert keys'[i] == keyList[i] && keyList[i] in keyList;
      }
    }
  }

  /** Removing the key that holds the next visited value keeps rem equal to the unvisited values. */
  lemma EmitValuesStep<K(!new)>(m: map<K, int>, listArr: seq<int>, ascending: bool, rem: seq<K>, n: int, p: int)
    requires forall k :: k in rem ==> k in m
    requires 0 <= n < |listArr| && EmitValues(m, listArr, ascending, rem, n)
    requires 0 <= p < |rem| && m[rem[p]] == listArr[VisitPos(ascending, |listArr|, n)]
    ensures forall k :: k in rem[..p] + rem[p + 1..] ==> k in m
    ensures EmitValues(m, listArr, ascending, rem[..p] + rem[p + 1..], n + 1)
  {
    assert forall k :: k in rem[..p] + rem[p + 1..] ==> k in rem by {
      assert rem == rem[..p] + [rem[p]] + rem[p + 1..];
    }
    UnvisitedStep(listArr, ascending, n);
    ValuesSplit(m, rem, p);
  }

  /** Once the n-th value is visited, the keys left lie beyond it too. */
  lemma EmitBeyondStep<K(!new)>(m: map<K, int>, listArr: seq<int>, ascending: bool, rem: seq<K>, rest: seq<K>, n: int)
    requires forall k :: k in rem ==> k in m
    requires forall k :: k in rest ==> k in rem
    requires Sorted(listArr) && 0 <= n < |listArr|
    requires EmitBeyond(m, listArr, ascending, rem, n)
    requires EmitValues(m, listArr, ascending, rest, n + 1)
    ensures EmitBeyond(m, listArr, ascending, rest, n + 1)
  {
    RestBeyondVisited(m, listArr, ascending, n, rest);
  }

  /** One iteration of the emission loop keeps its invariant. */
  lemma EmitInvariantStep<K(!new)>(m: map<K, int>, passed: seq<K>, listArr: seq<int>, ascending: bool,
                                   rem: seq<K>, keyList: seq<K>, p: int)
    requires forall k :: k in passed ==> k in m
    requires Sorted(listArr) && EmitInvariant(m, passed, listArr, ascending, rem, keyList) && |keyList| < |listArr|
    requires 0 <= p < |rem| && m[rem[p]] == listArr[VisitPos(ascending, |listArr|, |keyList|)]
    ensures EmitInvariant(m, passed, listArr, ascending, rem[..p] + rem[p + 1..], keyList + [rem[p]])
  {
    var n := |keyList|;
    var rest := rem[..p] + rem[p + 1..];
    var keys' := keyList + [rem[p]];
    EmitSplitStep(passed, rem, keyList, p);
    EmitValuesStep(m, listArr, ascending, rem, n, p);
    RemoveAt(rem, p);
    EmitBeyondStep(m, listArr, ascending, rem, rest, n);
    assert EmitVisited(m, listArr, ascending, keys');
  }

  /** What the emission loop leaves behind, read off its invariant. */
  lemma EmitFinish<K(!new)>(m: map<K, int>, passed: seq<K>, listArr: seq<int>, ascending: bool,
                            rem: seq<K>, keyList: seq<K>)
    requires forall k :: k in passed ==> k in m
    requires EmitInvariant(m, passed, listArr, ascending, rem, keyList)
    ensures Distinct(keyList) && forall k :: k in keyList ==> k in passed
    ensures forall t :: 0 <= t < |keyList| ==> m[keyList[t]] == listArr[VisitPos(ascending, |listArr|, t)]
    ensures forall k, t :: k in passed && k !in keyList && 0 <= t < |keyList| ==>
              if ascending then m[keyList[t]] <= m[k] else m[k] <= m[keyList[t]]
    ensures |keyList| == |passed| ==> forall k :: k in passed ==> k in keyList
  {
    forall k, t | k in passed && k !in keyList && 0 <= t < |keyList|
      ensures if ascending then m[keyList[t]] <= m[k] else m[k] <= m[keyList[t]]
    {
      assert k in rem;
    }
    if |keyList| == |passed| {
      assert rem == [];
    }
  }

  /** The first position of keys whose value in m is v, when one exists (the scan of passedMap). */
  method FirstWithValue<K(!new)>(m: map<K, int>, keys: seq<K>, v: int) returns (p: int)
    requires forall k :: k in keys ==> k in m
    requires exists q :: 0 <= q < |keys| && m[keys[q]] == v
    ensures 0 <= p < |keys| && m[keys[p]] == v
    ensures forall i :: 0 <= i < p ==> m[keys[i]] != v
  {
    ghost var q :| 0 <= q < |keys| && m[keys[q]] == v;
    p := 0;
    while m[keys[p]] != v
      invariant 0 <= p <= q
      invariant forall i :: 0 <= i < p ==> m[keys[i]] != v
      decreases q - p
    {
      p := p + 1;
    }
  }

  /**
   * The emission loop of getOrderedKeyList: walk the sorted value list from the
   * front (ascending) or the back (descending); for each value, the first remaining
   * entry of passedMap with that value is emitted and removed; stop once at least
   * numKeys keys are out (after the first one in any case).
   */
  method EmitKeys<K(==, !new)>(m: map<K, int>, passed: seq<K>, listArr: seq<int>, ascending: bool, numKeys: int)
    returns (keyList: seq<K>)
    requires Distinct(passed) && forall k :: k in passed ==> k in m
    requires Sorted(listArr) && multiset(listArr) == multiset(Values(m, passed))
    requires 0 < |listArr| && numKeys <= |listArr|
    ensures |keyList| == if numKeys < 1 then 1 else numKeys
    ensures Distinct(keyList) && forall k :: k in keyList ==> k in passed
    ensures forall t :: 0 <= t < |keyList| ==> m[keyList[t]] == listArr[VisitPos(ascending, |listArr|, t)]
    ensures forall k, t :: k in passed && k !in keyList && 0 <= t < |keyList| ==>
              if ascending then m[keyList[t]] <= m[k] else m[k] <= m[keyList[t]]
    ensures |keyList| == |passed| ==> forall k :: k in passed ==> k in keyList
  {
    var L := |listArr|;
    assert |passed| == |Values(m, passed)| == |multiset(Values(m, passed))| == L;
    var rem := passed;  // the entries still in passedMap, in iteration order
    keyList := [];
    var resultCount := 0;
    var index := if ascending then 0 else L - 1;
    assert Unvisited(listArr, ascending, 0) == listArr;
    while resultCount == 0 || resultCount < numKeys
      invariant resultCount == |keyList|
      invariant resultCount <= 1 || resultCount <= numKeys
      invariant index == VisitPos(ascending, L, resultCount)
      invariant EmitInvariant(m, passed, listArr, ascending, rem, keyList)
      decreases |rem|
    {
      var targetValue := listArr[index];
      EmitTargetPresent(m, passed, listArr, ascending, rem, keyList);
      var p := FirstWithValue(m, rem, targetValue);
      EmitInvariantStep(m, passed, listArr, ascending, rem, keyList, p);
      keyList := keyList + [rem[p]];
      rem := rem[..p] + rem[p + 1..];
      resultCount := resultCount + 1;
      index := if ascending then index + 1 else index - 1;
    }
    EmitFinish(m, passed, listArr, ascending, rem, keyList);
  }

  /** numKeys, limited to the map size. */
  function ClampNumKeys(numKeys: int, size: int): int
  {
    if numKeys > size then size else numKeys
  }

  /** The rank whose value becomes the pass value. */
  function TargetIndex(ascending: bool, size: int, numKeys: int): int
  {
    if ascending then numKeys else size - numKeys
  }

  /** The pass value: the value a full ascending sort of the map's values puts at the target index. */
  ghost function PassValue<K(!new)>(m: map<K, int>, order: seq<K>, ascending: bool, numKeys: int): int
    requires IsEnumeration(order, m)
    requires 0 <= TargetIndex(ascending, |m|, ClampNumKeys(numKeys, |m|)) < |m|
  {
    EnumerationSize(order, m);
    SortAscending(Values(m, order))[TargetIndex(ascending, |m|, ClampNumKeys(numKeys, |m|))]
  }

  /** Keys listed in value order: ascending, or descending when ascending is false. */
  ghost predicate InValueOrder<K(!new)>(m: map<K, int>, ascending: bool, keys: seq<K>)
    requires forall k :: k in keys ==> k in m
  {
    forall t, u :: 0 <= t < u < |keys| ==>
      if ascending then m[keys[t]] <= m[keys[u]] else m[keys[u]] <= m[keys[t]]
  }

  /** No key of m left out of keys beats a listed one. */
  ghost predicate NoneBetterLeftOut<K(!new)>(m: map<K, int>, ascending: bool, keys: seq<K>)
    requires forall k :: k in keys ==> k in m
  {
    forall k, t :: k in m && k !in keys && 0 <= t < |keys| ==>
      if ascending then m[keys[t]] <= m[k] else m[k] <= m[keys[t]]
  }

  /**
   * keys is a ranking of m against the pass value: distinct keys of m that pass;
   * exactly max(numKeys, 1) of them with a sharp limit, every passing key without;
   * listed in value order; and no key left out beats a listed one.
   */
  ghost predicate IsRanking<K(!new)>(m: map<K, int>, ascending: bool, passValue: int, numKeys: int, sharpLimit: bool, keys: seq<K>)
  {
    && Distinct(keys)
    && (forall k :: k in keys ==> k in m && Passes(m[k], passValue, ascending))
    && (sharpLimit ==> |keys| == if numKeys < 1 then 1 else numKeys)
    && (!sharpLimit ==> forall k :: k in m && Passes(m[k], passValue, ascending) ==> k in keys)
    && InValueOrder(m, ascending, keys)
    && NoneBetterLeftOut(m, ascending, keys)
  }

  /** At least numKeys entries, and at least one, pass the value selected at the target index. */
  lemma EnoughPass<K(!new)>(m: map<K, int>, order: seq<K>, ascending: bool, numKeys: int)
    requires IsEnumeration(order, m)
    requires 0 <= TargetIndex(ascending, |m|, ClampNumKeys(numKeys, |m|)) < |m|
    ensures var passed := FilterPassing(m, order, PassValue(m, order, ascending, numKeys), ascending);
            0 < |passed| && ClampNumKeys(numKeys, |m|) <= |passed|
  {
    EnumerationSize(order, m);
    var target := TargetIndex(ascending, |m|, ClampNumKeys(numKeys, |m|));
    var pv := PassValue(m, order, ascending, numKeys);
    SortedIsOrderStatistic(Values(m, order), target);
    FilterPassingCount(m, order, pv, ascending);
  }

  /** Keys whose values follow the visiting order of a sorted list are in value order. */
  lemma VisitedInValueOrder<K(!new)>(m: map<K, int>, ascending: bool, listArr: seq<int>, keyList: seq<K>)
    requires Sorted(listArr) && |keyList| <= |listArr|
    requires forall k :: k in keyList ==> k in m
    requires forall t :: 0 <= t < |keyList| ==> m[keyList[t]] == listArr[VisitPos(ascending, |listArr|, t)]
    ensures InValueOrder(m, ascending, keyList)
  {
    forall t, u | 0 <= t < u < |keyList|
      ensures if ascending then m[keyList[t]] <= m[keyList[u]] else m[keyList[u]] <= m[keyList[t]]
    {
      var L := |listArr|;
      assert 0 <= VisitPos(ascending, L, t) < L && 0 <= VisitPos(ascending, L, u) < L;
    }
  }

  /** A key that fails the pass test never beats one that passes it. */
  lemma PassedBeatFailed<K(!new)>(m: map<K, int>, order: seq<K>, ascending: bool, passValue: int, passed: seq<K>, keyList: seq<K>)
    requires IsEnumeration(order, m)
    requires passed == FilterPassing(m, order, passValue, ascending)
    requires forall k :: k in passed ==> k in m
    requires forall k :: k in keyList ==> k in passed
    requires forall k, t :: k in passed && k !in keyList && 0 <= t < |keyList| ==>
               if ascending then m[keyList[t]] <= m[k] else m[k] <= m[keyList[t]]
    ensures NoneBetterLeftOut(m, ascending, keyList)
  {
    FilterPassingMembers(m, order, passValue, ascending);
    forall k, t | k in m && k !in keyList && 0 <= t < |keyList|
      ensures if ascending then m[keyList[t]] <= m[k] else m[k] <= m[keyList[t]]
    {
      assert keyList[t] in passed;
      if k !in passed {
        assert k in order;
      }
    }
  }

  /** What EmitKeys promises about a list of passing keys makes the result a ranking of m. */
  lemma EmissionIsRanking<K(!new)>(m: map<K, int>, order: seq<K>, ascending: bool, passValue: int, n: int,
                                   sharpLimit: bool, passed: seq<K>, listArr: seq<int>, keyList: seq<K>)
    requires IsEnumeration(order, m)
    requires passed == FilterPassing(m, order, passValue, ascending)
    requires forall k :: k in passed ==> k in m
    requires Sorted(listArr) && |keyList| <= |listArr|
    requires sharpLimit ==> |keyList| == if n < 1 then 1 else n
    requires Distinct(keyList) && forall k :: k in keyList ==> k in passed
    requires forall t :: 0 <= t < |keyList| ==> m[keyList[t]] == listArr[VisitPos(ascending, |listArr|, t)]
    requires forall k, t :: k in passed && k !in keyList && 0 <= t < |keyList| ==>
               if ascending then m[keyList[t]] <= m[k] else m[k] <= m[keyList[t]]
    requires !sharpLimit ==> forall k :: k in passed ==> k in keyList
    ensures IsRanking(m, ascending, passValue, n, sharpLimit, keyList)
  {
    FilterPassingMembers(m, order, passValue, ascending);
    VisitedInValueOrder(m, ascending, listArr, keyList);
    PassedBeatFailed(m, order, ascending, passValue, passed, keyList);
  }

  /** The first pass over the entry set: the values, in iteration order. */
  method FillValues<K(==, !new)>(m: map<K, int>, order: seq<K>) returns (values: array<int>)
    requires forall k :: k in order ==> k in m
    ensures fresh(values)
    ensures values[..] == Values(m, order)
  {
    values := new int[|order|];
    var count := 0;
    while count < |order|
      invariant 0 <= count <= |order|
      invariant forall i :: 0 <= i < count ==> values[i] == m[order[i]]
    {
      values[count] := m[order[count]];
      count := count + 1;
    }
  }

  /**
   * The second and third passes of getOrderedKeyList once the pass value is known:
   * keep the passing entries, sort their values, and emit keys in value order.
   */
  method RankPassing<K(==, !new)>(m: map<K, int>, order: seq<K>, ascending: bool, passValue: int, numKeys: int, sharpLimit: bool)
    returns (keyList: seq<K>)
    requires IsEnumeration(order, m)
    requires 0 <= TargetIndex(ascending, |m|, ClampNumKeys(numKeys, |m|)) < |m|
    requires passValue == PassValue(m, order, ascending, numKeys)
    ensures IsRanking(m, ascending, passValue, ClampNumKeys(numKeys, |m|), sharpLimit, keyList)
  {
    var n := ClampNumKeys(numKeys, |m|);
    var passed, valueList := CollectPassed(m, order, passValue, ascending);
    FilterPassingDistinct(m, order, passValue, ascending);
    var listArr := SortAscending(valueList);
    EnoughPass(m, order, ascending, numKeys);
    if !sharpLimit {
      n := |listArr|;
    }
    // passedMap is a new HashMap: it iterates its keys in an order of its own
    var passedOrder := Enumerate(set k | k in passed);
    SameElementsPermutation(passedOrder, passed);
    ValuesPermutation(m, passedOrder, passed);
    keyList := EmitKeys(m, passedOrder, listArr, ascending, n);
    EmissionIsRanking(m, order, ascending, passValue, ClampNumKeys(numKeys, |m|), sharpLimit, passed, listArr, keyList);
  }

  /**
   * getOrderedKeyList(numKeys, sharpLimit) of a MapRankDouble over m whose entry set
   * iterates in `order`. An empty map gives an empty list; a target index outside the
   * value array raises ArrayIndexOutOfBoundsException in getOrderedValue.
   */
  method GetOrderedKeyList<K(==, !new)>(m: map<K, int>, order: seq<K>, ascending: bool, numKeys: int, sharpLimit: bool)
    returns (r: Result<seq<K>>)
    requires IsEnumeration(order, m)
    ensures |m| == 0 ==> r == Success([])
    ensures r.Failure? <==> |m| > 0 && !(0 <= TargetIndex(ascending, |m|, ClampNumKeys(numKeys, |m|)) < |m|)
    ensures r.Failure? ==> r.error == IndexOutOfBounds
    ensures r.Success? && |m| > 0 ==>
              IsRanking(m, ascending, PassValue(m, order, ascending, numKeys), ClampNumKeys(numKeys, |m|), sharpLimit, r.value)
  {
    EnumerationSize(order, m);
    var size := |order|;
    var n := numKeys;
    // if the numKeys is larger than map size, limit it
    if n > size {
      n := size;
    }
    if size == 0 {
      return Success([]);
    }
    var values := FillValues(m, order);
    var targetIndex := if ascending then n else values.Length - n;
    assert targetIndex == TargetIndex(ascending, |m|, ClampNumKeys(numKeys, |m|));
    ghost var before := values[..];
    var selected := GetOrderedValue(values, targetIndex);
    if selected.Failure? {
      return Failure(selected.error);
    }
    var passValue := selected.value;
    assert passValue == SortAscending(before)[targetIndex];
    assert passValue == PassValue(m, order, ascending, numKeys) by {
      assert before == Values(m, order);
    }
    var keyList := RankPassing(m, order, ascending, passValue, numKeys, sharpLimit);
    return Success(keyList);
  }
}
