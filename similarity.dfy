/**
 * FingerprintSimilarityComputer.getFingerprintsSimilarity: offset voting between the
 * pair-position tables of two fingerprints, ranking of the offsets by votes, smoothing
 * of the top offsets with their neighbours, and normalisation by the frame count.
 */
module FingerprintSimilarityComputer {
  import opened Results
  import opened Sequences
  import FingerprintManager
  import MapRankDouble

  /** A pair-position table: hash -> positions (frames) at which the pair occurs. */
  type PositionTable = map<int, seq<int>>

  /** Integer.MIN_VALUE, the position reported when no offset is ranked. */
  const IntMin: int := -0x8000_0000

  /** A value of the offset table, 0 when the key is absent. */
  function Get(table: map<int, int>, key: int): (count: int)
  {
    if key in table then table[key] else 0
  }

  /** Every stored count is at least one. */
  ghost predicate Positive(table: map<int, int>)
  {
    forall o :: o in table ==> table[o] >= 1
  }

  // ---------------------------------------------------------------------------
  // Offset votes
  // ---------------------------------------------------------------------------

  /** The number of positions q of qs with p - q == offset. */
  function Matches(p: int, qs: seq<int>, offset: int): (n: nat)
    ensures n <= |qs|
    decreases |qs|
  {
    if qs == [] then 0
    else Matches(p, qs[..|qs| - 1], offset) + (if p - qs[|qs| - 1] == offset then 1 else 0)
  }

  /** The number of pairs (p, q) of ps x qs with p - q == offset. */
  function PairVotes(ps: seq<int>, qs: seq<int>, offset: int): (votes: nat)
    decreases |ps|
  {
    if ps == [] then 0
    else PairVotes(ps[..|ps| - 1], qs, offset) + Matches(ps[|ps| - 1], qs, offset)
  }

  /** The votes of one hash: nothing unless both tables hold it. */
  function HashContribution(thisTable: PositionTable, compareTable: PositionTable, h: int, offset: int): nat
  {
    if h in thisTable && h in compareTable then PairVotes(thisTable[h], compareTable[h], offset) else 0
  }

  /** The votes for an offset summed over a set of hashes. */
  ghost function HashVotes(thisTable: PositionTable, compareTable: PositionTable, hashes: set<int>, offset: int): nat
    decreases hashes
  {
    if hashes == {} then 0
    else
      var h := Pick(hashes);
      HashVotes(thisTable, compareTable, hashes - {h}, offset) + HashContribution(thisTable, compareTable, h, offset)
  }

  /** The votes for an offset: the pairs over every hash of the compared table. */
  ghost function Votes(thisTable: PositionTable, compareTable: PositionTable, offset: int): (votes: nat)
  {
    HashVotes(thisTable, compareTable, compareTable.Keys, offset)
  }

  /** The sum over a set does not depend on which element is taken out first. */
  lemma {:induction false} HashVotesRemove(thisTable: PositionTable, compareTable: PositionTable, hashes: set<int>, h: int, offset: int)
    requires h in hashes
    ensures HashVotes(thisTable, compareTable, hashes, offset)
            == HashVotes(thisTable, compareTable, hashes - {h}, offset) + HashContribution(thisTable, compareTable, h, offset)
    decreases hashes
  {
    var x := Pick(hashes);
    if x != h {
      HashVotesRemove(thisTable, compareTable, hashes - {x}, h, offset);
      assert hashes - {x} - {h} == hashes - {h} - {x};
      HashVotesRemove(thisTable, compareTable, hashes - {h}, x, offset);
    }
  }

  /**
   * The inner loops of the voting: every pair (thisPosition, compareWavePosition)
   * adds one vote to their offset, creating the entry with 1 when it is absent.
   */
  method AddPairVotes(table: map<int, int>, wavePositionList: seq<int>, compareWavePositionList: seq<int>)
    returns (updated: map<int, int>)
    ensures forall o :: Get(updated, o) == Get(table, o) + PairVotes(wavePositionList, compareWavePositionList, o)
    ensures Positive(table) ==> Positive(updated)
  {
    var ps, qs := wavePositionList, compareWavePositionList;
    updated := table;
    for a := 0 to |ps|
      invariant forall o :: Get(updated, o) == Get(table, o) + PairVotes(ps[..a], qs, o)
      invariant Positive(table) ==> Positive(updated)
    {
      assert ps[..a + 1][..a] == ps[..a];
      var thisPosition := ps[a];
      for b := 0 to |qs|
        invariant forall o :: Get(updated, o) == Get(table, o) + PairVotes(ps[..a], qs, o) + Matches(thisPosition, qs[..b], o)
        invariant Positive(table) ==> Positive(updated)
      {
        assert qs[..b + 1][..b] == qs[..b];
        var compareWavePosition := qs[b];
        var offset := thisPosition - compareWavePosition;
        if offset in updated {
          updated := updated[offset := updated[offset] + 1];
        } else {
          updated := updated[offset := 1];
        }
      }
      assert qs[..|qs|] == qs;
    }
    assert ps[..|ps|] == ps;
  }

  /**
   * offset_Score_Table: for every hash of the compared table that the other table also
   * holds, the votes of all its position pairs; the key set is visited in any order.
   */
  method VoteOffsets(thisTable: PositionTable, compareTable: PositionTable) returns (offsetScoreTable: map<int, int>)
    ensures forall o :: Get(offsetScoreTable, o) == Votes(thisTable, compareTable, o)
    ensures forall o :: o in offsetScoreTable <==> Votes(thisTable, compareTable, o) > 0
    ensures Positive(offsetScoreTable)
  {
    offsetScoreTable := map[];
    var remaining := compareTable.Keys;
    ghost var visited: set<int> := {};
    while remaining != {}
      invariant remaining + visited == compareTable.Keys && remaining !! visited
      invariant forall o :: Get(offsetScoreTable, o) == HashVotes(thisTable, compareTable, visited, o)
      invariant Positive(offsetScoreTable)
      decreases remaining
    {
      ghost var w := Pick(remaining);
      var compareWaveHashNumber :| compareWaveHashNumber in remaining;
      remaining := remaining - {compareWaveHashNumber};
      // a hash missing from either table has nothing to compare
      if compareWaveHashNumber in thisTable && compareWaveHashNumber in compareTable {
        offsetScoreTable := AddPairVotes(offsetScoreTable, thisTable[compareWaveHashNumber], compareTable[compareWaveHashNumber]);
      }
      forall o
        ensures HashVotes(thisTable, compareTable, visited + {compareWaveHashNumber}, o)
                == HashVotes(thisTable, compareTable, visited, o) + HashContribution(thisTable, compareTable, compareWaveHashNumber, o)
      {
        assert (visited + {compareWaveHashNumber}) - {compareWaveHashNumber} == visited;
        HashVotesRemove(thisTable, compareTable, visited + {compareWaveHashNumber}, compareWaveHashNumber, o);
      }
      visited := visited + {compareWaveHashNumber};
    }
  }

  /** Matches counts something exactly when some q of qs lies at the offset from p. */
  lemma {:induction false} MatchesPositive(p: int, qs: seq<int>, offset: int)
    ensures Matches(p, qs, offset) > 0 <==> exists j :: 0 <= j < |qs| && p - qs[j] == offset
    decreases |qs|
  {
    if qs != [] {
      var init := qs[..|qs| - 1];
      MatchesPositive(p, init, offset);
      if exists j :: 0 <= j < |init| && p - init[j] == offset {
        var j :| 0 <= j < |init| && p - init[j] == offset;
        assert qs[j] == init[j];
      }
      if exists j :: 0 <= j < |qs| && p - qs[j] == offset {
        var j :| 0 <= j < |qs| && p - qs[j] == offset;
        if j < |init| {
          assert init[j] == qs[j];
        }
      }
    }
  }

  /** PairVotes counts something exactly when some pair of positions lies at the offset. */
  lemma {:induction false} PairVotesPositive(ps: seq<int>, qs: seq<int>, offset: int)
    ensures PairVotes(ps, qs, offset) > 0 <==> exists i, j :: 0 <= i < |ps| && 0 <= j < |qs| && ps[i] - qs[j] == offset
    decreases |ps|
  {
    if ps != [] {
      var init := ps[..|ps| - 1];
      PairVotesPositive(init, qs, offset);
      MatchesPositive(ps[|ps| - 1], qs, offset);
      if exists i, j :: 0 <= i < |init| && 0 <= j < |qs| && init[i] - qs[j] == offset {
        var i, j :| 0 <= i < |init| && 0 <= j < |qs| && init[i] - qs[j] == offset;
        assert ps[i] == init[i];
      }
      if exists i, j :: 0 <= i < |ps| && 0 <= j < |qs| && ps[i] - qs[j] == offset {
        var i, j :| 0 <= i < |ps| && 0 <= j < |qs| && ps[i] - qs[j] == offset;
        if i < |init| {
          assert init[i] == ps[i];
        }
      }
    }
  }

  /** A sum over hashes is positive exactly when one of its hashes contributes. */
  lemma {:induction false} HashVotesPositive(thisTable: PositionTable, compareTable: PositionTable, hashes: set<int>, offset: int)
    ensures HashVotes(thisTable, compareTable, hashes, offset) > 0
            <==> exists h :: h in hashes && HashContribution(thisTable, compareTable, h, offset) > 0
    decreases hashes
  {
    if hashes != {} {
      var x := Pick(hashes);
      HashVotesPositive(thisTable, compareTable, hashes - {x}, offset);
    }
  }

  /**
   * An offset gets votes exactly when some hash held by both tables has a position p
   * in this table and q in the compared one with p - q equal to the offset.
   */
  lemma VotesPositive(thisTable: PositionTable, compareTable: PositionTable, offset: int)
    ensures Votes(thisTable, compareTable, offset) > 0 <==>
            exists h, i, j :: h in thisTable && h in compareTable && 0 <= i < |thisTable[h]| && 0 <= j < |compareTable[h]|
                              && thisTable[h][i] - compareTable[h][j] == offset
  {
    HashVotesPositive(thisTable, compareTable, compareTable.Keys, offset);
    forall h | h in thisTable && h in compareTable {
      PairVotesPositive(thisTable[h], compareTable[h], offset);
    }
  }

  /** Some hash is held by both tables with positions on both sides. */
  ghost predicate AnySharedPair(thisTable: PositionTable, compareTable: PositionTable)
  {
    exists h :: h in thisTable && h in compareTable && |thisTable[h]| > 0 && |compareTable[h]| > 0
  }

  /** Some offset gets votes exactly when the tables share a hash with positions on both sides. */
  lemma SomeOffsetVoted(thisTable: PositionTable, compareTable: PositionTable)
    ensures (exists o :: Votes(thisTable, compareTable, o) > 0) <==> AnySharedPair(thisTable, compareTable)
  {
    if AnySharedPair(thisTable, compareTable) {
      var h :| h in thisTable && h in compareTable && |thisTable[h]| > 0 && |compareTable[h]| > 0;
      var o := thisTable[h][0] - compareTable[h][0];
      VotesPositive(thisTable, compareTable, o);
    }
    if exists o :: Votes(thisTable, compareTable, o) > 0 {
      var o :| Votes(thisTable, compareTable, o) > 0;
      VotesPositive(thisTable, compareTable, o);
    }
  }

  /** Every position of the table moved by d frames. */
  function Shift(table: PositionTable, d: int): (shifted: PositionTable)
    ensures shifted.Keys == table.Keys
    ensures forall h :: h in table ==> |shifted[h]| == |table[h]|
  {
    map h | h in table :: seq(|table[h]|, i requires 0 <= i < |table[h]| => table[h][i] + d)
  }

  lemma {:induction false} MatchesShift(p: int, qs: seq<int>, offset: int, d: int)
    ensures Matches(p + d, qs, offset + d) == Matches(p, qs, offset)
    decreases |qs|
  {
    if qs != [] {
      MatchesShift(p, qs[..|qs| - 1], offset, d);
    }
  }

  lemma {:induction false} PairVotesShift(ps: seq<int>, qs: seq<int>, offset: int, d: int)
    ensures PairVotes(seq(|ps|, i requires 0 <= i < |ps| => ps[i] + d), qs, offset + d) == PairVotes(ps, qs, offset)
    decreases |ps|
  {
    if ps != [] {
      var n := |ps| - 1;
      var shifted := seq(|ps|, i requires 0 <= i < |ps| => ps[i] + d);
      assert shifted[..n] == seq(n, i requires 0 <= i < n => ps[..n][i] + d);
      PairVotesShift(ps[..n], qs, offset, d);
      MatchesShift(ps[n], qs, offset, d);
    }
  }

  lemma {:induction false} HashVotesShift(thisTable: PositionTable, compareTable: PositionTable, hashes: set<int>, offset: int, d: int)
    ensures HashVotes(Shift(thisTable, d), compareTable, hashes, offset + d) == HashVotes(thisTable, compareTable, hashes, offset)
    decreases hashes
  {
    if hashes != {} {
      var x := Pick(hashes);
      HashVotesShift(thisTable, compareTable, hashes - {x}, offset, d);
      if x in thisTable && x in compareTable {
        PairVotesShift(thisTable[x], compareTable[x], offset, d);
      }
    }
  }

  /**
   * Shift invariance: delaying every position of the first fingerprint by d frames moves
   * every vote from offset o to offset o + d.
   */
  lemma VotesShift(thisTable: PositionTable, compareTable: PositionTable, offset: int, d: int)
    ensures Votes(Shift(thisTable, d), compareTable, offset + d) == Votes(thisTable, compareTable, offset)
  {
    HashVotesShift(thisTable, compareTable, compareTable.Keys, offset, d);
  }

  // ---------------------------------------------------------------------------
  // Ranking of the offsets
  // ---------------------------------------------------------------------------

  /** The number of offsets kept by the ranking. */
  const TopOffsetCount: int := 60

  /**
   * keys are the top min(60, |table|) offsets by votes: distinct offsets of the table,
   * listed from the most voted down, with no offset left out voted above a listed one.
   */
  ghost predicate IsTopOffsets(table: map<int, int>, keys: seq<int>)
  {
    && Distinct(keys)
    && (forall t :: 0 <= t < |keys| ==> keys[t] in table)
    && |keys| == (if |table| < TopOffsetCount then |table| else TopOffsetCount)
    && MapRankDouble.InValueOrder(table, false, keys)
    && MapRankDouble.NoneBetterLeftOut(table, false, keys)
  }

  /** An iteration order of the table's entries; any order may come out. */
  method EnumerateKeys(table: map<int, int>) returns (order: seq<int>)
    ensures MapRankDouble.IsEnumeration(order, table)
  {
    order := Enumerate(table.Keys);
  }

  /**
   * new MapRankInteger(offset_Score_Table, false).getOrderedKeyList(60, true): the
   * ranking never fails here, since the descending target index size - min(60, size)
   * lies inside any non-empty table.
   */
  method RankOffsets(offsetScoreTable: map<int, int>) returns (orderedKeyList: seq<int>)
    ensures IsTopOffsets(offsetScoreTable, orderedKeyList)
  {
    var order := EnumerateKeys(offsetScoreTable);
    var r := MapRankDouble.GetOrderedKeyList(offsetScoreTable, order, false, TopOffsetCount, true);
    orderedKeyList := r.value;
  }

  /** The first ranked offset has the most votes of all offsets. */
  lemma TopKeyMostVoted(table: map<int, int>, keys: seq<int>)
    requires IsTopOffsets(table, keys) && keys != []
    ensures forall o :: o in table ==> table[o] <= table[keys[0]]
  {
    forall o | o in table
      ensures table[o] <= table[keys[0]]
    {
      if o in keys {
        var t :| 0 <= t < |keys| && keys[t] == o;
        if t > 0 {
          assert 0 <= 0 < t < |keys|;
        }
      }
    }
  }

  // ---------------------------------------------------------------------------
  // Smoothing and the acceptance threshold
  // ---------------------------------------------------------------------------

  /** The smallest smoothed score that is accumulated. */
  const ScoreThreshold: int := 9

  /** Java's integer division, which truncates toward zero. */
  function JavaDiv(a: int, d: int): (q: int)
    requires d > 0
    ensures a >= 0 ==> q == a / d
    ensures a < 0 ==> q == -((-a) / d)
  {
    if a >= 0 then a / d else -((-a) / d)
  }

  /** The score of an offset with its neighbours' votes: halves at distance 1, quarters at distance 2. */
  function Smoothed(table: map<int, int>, key: int): (score: int)
  {
    Get(table, key)
      + JavaDiv(Get(table, key - 1), 2) + JavaDiv(Get(table, key - 2), 4)
      + JavaDiv(Get(table, key + 1), 2) + JavaDiv(Get(table, key + 2), 4)
  }

  /** What one offset adds to newScore: its smoothed score when it reaches the threshold. */
  function Contribution(table: map<int, int>, key: int): (c: int)
    ensures c == 0 || c >= ScoreThreshold
  {
    var score := Smoothed(table, key);
    if score >= ScoreThreshold then score else 0
  }

  /** The number of keys whose smoothed score reaches the threshold. */
  function Accepted(table: map<int, int>, keys: seq<int>): nat
    decreases |keys|
  {
    if keys == [] then 0
    else Accepted(table, keys[..|keys| - 1]) + (if Smoothed(table, keys[|keys| - 1]) >= ScoreThreshold then 1 else 0)
  }

  /**
   * newScore: the sum of the smoothed scores of keys that reach the threshold. Every
   * accepted key adds at least the threshold, and nothing else is added.
   */
  function NewScore(table: map<int, int>, keys: seq<int>): (s: nat)
    ensures s >= ScoreThreshold * Accepted(table, keys)
    ensures s == 0 <==> Accepted(table, keys) == 0
    decreases |keys|
  {
    if keys == [] then 0
    else NewScore(table, keys[..|keys| - 1]) + Contribution(table, keys[|keys| - 1])
  }

  lemma {:induction false} NewScoreConcat(table: map<int, int>, a: seq<int>, b: seq<int>)
    ensures NewScore(table, a + b) == NewScore(table, a) + NewScore(table, b)
    decreases |b|
  {
    if b == [] {
      assert a + b == a;
    } else {
      var n := |b| - 1;
      assert (a + b)[..|a + b| - 1] == a + b[..n];
      NewScoreConcat(table, a, b[..n]);
    }
  }

  /** newScore does not depend on the order of the ranked keys within one ranked set. */
  lemma {:induction false} NewScorePermutation(table: map<int, int>, a: seq<int>, b: seq<int>)
    requires multiset(a) == multiset(b)
    ensures NewScore(table, a) == NewScore(table, b)
    decreases |a|
  {
    if a != [] {
      var n := |a| - 1;
      var x := a[n];
      assert a == a[..n] + [x];
      assert x in multiset(b);
      var i :| 0 <= i < |b| && b[i] == x;
      assert b == b[..i] + [x] + b[i + 1..];
      var rest := b[..i] + b[i + 1..];
      assert multiset(a[..n]) == multiset(rest) by {
        assert multiset(a) == multiset(a[..n]) + multiset{x};
        assert multiset(b) == multiset(b[..i]) + multiset{x} + multiset(b[i + 1..]);
        assert multiset(rest) == multiset(b[..i]) + multiset(b[i + 1..]);
        forall y
          ensures multiset(a[..n])[y] == multiset(rest)[y]
        {
          assert multiset(a)[y] == multiset(b)[y];
        }
      }
      NewScorePermutation(table, a[..n], rest);
      NewScoreConcat(table, b[..i] + [x], b[i + 1..]);
      NewScoreConcat(table, b[..i], [x]);
      NewScoreConcat(table, b[..i], b[i + 1..]);
      assert [x][..0] == [];
    }
  }

  /** The position reported: the last key iterated, Integer.MIN_VALUE when there is none. */
  function LastKey(keys: seq<int>): int
  {
    if keys == [] then IntMin else keys[|keys| - 1]
  }

  /** The reported position has the fewest votes among the ranked offsets, not the most. */
  lemma LastKeyLeastVoted(table: map<int, int>, keys: seq<int>)
    requires IsTopOffsets(table, keys) && keys != []
    ensures LastKey(keys) in table
    ensures forall k :: k in keys ==> table[LastKey(keys)] <= table[k]
  {
    forall k | k in keys
      ensures table[LastKey(keys)] <= table[k]
    {
      var t :| 0 <= t < |keys| && keys[t] == k;
      if t < |keys| - 1 {
        assert 0 <= t < |keys| - 1 < |keys|;
      }
    }
  }

  /** The smoothed score of one ranked offset, adding only the neighbours present in the table. */
  method SmoothedScore(table: map<int, int>, key: int) returns (score: int)
    requires key in table
    ensures score == Smoothed(table, key)
  {
    score := table[key];
    if key - 1 in table {
      score := score + JavaDiv(table[key - 1], 2);
    }
    if key - 2 in table {
      score := score + JavaDiv(table[key - 2], 4);
    }
    if key + 1 in table {
      score := score + JavaDiv(table[key + 1], 2);
    }
    if key + 2 in table {
      score := score + JavaDiv(table[key + 2], 4);
    }
  }

  /**
   * The loop over the ordered key list: each key overwrites mostSimilarFramePosition
   * and adds its smoothed score to newScore when it reaches the threshold.
   */
  method ScoreOffsets(offsetScoreTable: map<int, int>, orderedKeyList: seq<int>)
    returns (newScore: int, mostSimilarFramePosition: int)
    requires forall k :: k in orderedKeyList ==> k in offsetScoreTable
    ensures newScore == NewScore(offsetScoreTable, orderedKeyList)
    ensures mostSimilarFramePosition == LastKey(orderedKeyList)
  {
    var table := offsetScoreTable;
    newScore := 0;
    mostSimilarFramePosition := IntMin;
    for t := 0 to |orderedKeyList|
      invariant newScore == NewScore(table, orderedKeyList[..t])
      invariant mostSimilarFramePosition == LastKey(orderedKeyList[..t])
    {
      assert orderedKeyList[..t + 1][..t] == orderedKeyList[..t];
      var key := orderedKeyList[t];
      mostSimilarFramePosition := key;
      var score := SmoothedScore(table, key);
      newScore := newScore + if score >= ScoreThreshold then score else 0;
    }
    assert orderedKeyList[..|orderedKeyList|] == orderedKeyList;
  }

  // ---------------------------------------------------------------------------
  // Normalisation by the frame count
  // ---------------------------------------------------------------------------

  /**
   * numFrames: the frame count of the fingerprint with fewer bytes (fingerprint1 on equal
   * lengths); zero exactly when that fingerprint holds no complete record.
   */
  function NumFramesOf(fingerprint1: seq<FingerprintManager.Byte>, fingerprint2: seq<FingerprintManager.Byte>): (numFrames: int)
    ensures 0 <= numFrames <= 0x1_0000
    ensures numFrames == 0 <==> |fingerprint1| < 8 || |fingerprint2| < 8
  {
    if |fingerprint1| > |fingerprint2| then FingerprintManager.GetNumFrames(fingerprint2)
    else FingerprintManager.GetNumFrames(fingerprint1)
  }

  type FrameCount = d: int | d > 0 witness 1

  /** A float result of an integer division: an exact quotient, or Java's values for x / 0. */
  datatype Ratio = Quotient(num: int, den: FrameCount) | PositiveInfinity | NaN

  /** float division of the non-negative newScore by numFrames. */
  function Divide(newScore: nat, numFrames: nat): (q: Ratio)
    ensures q.NaN? <==> newScore == 0 && numFrames == 0
    ensures q.PositiveInfinity? <==> newScore > 0 && numFrames == 0
    ensures q.Quotient? ==> q.num * numFrames == newScore * q.den
  {
    if numFrames > 0 then Quotient(newScore, numFrames)
    else if newScore == 0 then NaN
    else PositiveInfinity
  }

  /** similarity > 1, as Java's float comparison answers it (false for NaN). */
  predicate AboveOne(r: Ratio)
  {
    match r
    case Quotient(num, den) => num > den
    case PositiveInfinity => true
    case NaN => false
  }

  /** similarity: the score, lowered to 1 when it is above 1. */
  function Clamp(score: Ratio): (similarity: Ratio)
    ensures similarity.NaN? <==> score.NaN?
    ensures !AboveOne(similarity)
  {
    if AboveOne(score) then Quotient(1, 1) else score
  }

  /** The result object with its three setters applied. */
  datatype FingerprintSimilarity = FingerprintSimilarity(mostSimilarFramePosition: int, score: Ratio, similarity: Ratio)

  /** The result for a vote table, its ranked offsets and the frame count. */
  function Outcome(table: map<int, int>, keys: seq<int>, numFrames: nat): FingerprintSimilarity
  {
    var score := Divide(NewScore(table, keys), numFrames);
    FingerprintSimilarity(LastKey(keys), score, Clamp(score))
  }

  /**
   * With at least one frame, score is newScore / numFrames and similarity is
   * min(score, 1): a fraction between 0 and 1.
   */
  lemma SimilarityInUnitRange(table: map<int, int>, keys: seq<int>, numFrames: nat)
    requires numFrames > 0
    ensures Outcome(table, keys, numFrames).score == Quotient(NewScore(table, keys), numFrames)
    ensures var sim := Outcome(table, keys, numFrames).similarity;
            sim.Quotient? && 0 <= sim.num <= sim.den
            && sim.num * numFrames == (if NewScore(table, keys) < numFrames then NewScore(table, keys) else numFrames) * sim.den
  {
  }

  /** An empty ranking scores 0 and reports Integer.MIN_VALUE. */
  lemma NoOffsetsScoreZero(table: map<int, int>, numFrames: nat)
    requires numFrames > 0
    ensures Outcome(table, [], numFrames) == FingerprintSimilarity(IntMin, Quotient(0, numFrames), Quotient(0, numFrames))
  {
  }

  // ---------------------------------------------------------------------------
  // getFingerprintsSimilarity
  // ---------------------------------------------------------------------------

  /** The vote table is empty exactly when the tables share no hash with positions on both sides. */
  lemma EmptyTableIffNoSharedPair(thisTable: PositionTable, compareTable: PositionTable, table: map<int, int>)
    requires forall o :: o in table <==> Votes(thisTable, compareTable, o) > 0
    ensures |table| == 0 <==> !AnySharedPair(thisTable, compareTable)
  {
    SomeOffsetVoted(thisTable, compareTable);
    if |table| == 0 {
      assert table.Keys == {};
    } else {
      var o := Pick(table.Keys);
    }
  }

  /**
   * getFingerprintsSimilarity as written: votes, ranks, scores, then normalises. The
   * logged newScore / orderedKeyList.size() divides by zero when no offset was voted,
   * which happens exactly when the pair tables share no hash with positions on both sides.
   */
  method GetFingerprintsSimilarity(fingerprint1: seq<FingerprintManager.Byte>, fingerprint2: seq<FingerprintManager.Byte>,
                                   thisTable: PositionTable, compareTable: PositionTable)
    returns (r: Result<FingerprintSimilarity>, ghost offsetScoreTable: map<int, int>, ghost orderedKeyList: seq<int>)
    ensures forall o :: Get(offsetScoreTable, o) == Votes(thisTable, compareTable, o)
    ensures forall o :: o in offsetScoreTable <==> Votes(thisTable, compareTable, o) > 0
    ensures IsTopOffsets(offsetScoreTable, orderedKeyList)
    ensures r.Failure? <==> !AnySharedPair(thisTable, compareTable)
    ensures r.Failure? ==> r.error == DivisionByZero
    ensures r.Success? ==> r.value == Outcome(offsetScoreTable, orderedKeyList, NumFramesOf(fingerprint1, fingerprint2))
  {
    var numFrames := NumFramesOf(fingerprint1, fingerprint2);
    var table := VoteOffsets(thisTable, compareTable);
    var ranked := RankOffsets(table);
    var newScore, position := ScoreOffsets(table, ranked);
    offsetScoreTable, orderedKeyList := table, ranked;
    EmptyTableIffNoSharedPair(thisTable, compareTable, table);
    if |ranked| == 0 {
      return Failure(DivisionByZero), offsetScoreTable, orderedKeyList;
    }
    var score := Divide(newScore, numFrames);
    var similarity := score;
    if AboveOne(similarity) {
      similarity := Quotient(1, 1);
    }
    r := Success(FingerprintSimilarity(position, score, similarity));
  }

  /**
   * getFingerprintsSimilarity without the failing log line: it always yields the result,
   * and tables without a common hash score 0.
   */
  method GetFingerprintsSimilarityGuarded(fingerprint1: seq<FingerprintManager.Byte>, fingerprint2: seq<FingerprintManager.Byte>,
                                          thisTable: PositionTable, compareTable: PositionTable)
    returns (result: FingerprintSimilarity, ghost offsetScoreTable: map<int, int>, ghost orderedKeyList: seq<int>)
    ensures forall o :: Get(offsetScoreTable, o) == Votes(thisTable, compareTable, o)
    ensures IsTopOffsets(offsetScoreTable, orderedKeyList)
    ensures result == Outcome(offsetScoreTable, orderedKeyList, NumFramesOf(fingerprint1, fingerprint2))
    ensures !AnySharedPair(thisTable, compareTable) && NumFramesOf(fingerprint1, fingerprint2) > 0 ==>
              result.mostSimilarFramePosition == IntMin && result.similarity == Quotient(0, NumFramesOf(fingerprint1, fingerprint2))
  {
    var numFrames := NumFramesOf(fingerprint1, fingerprint2);
    var table := VoteOffsets(thisTable, compareTable);
    var ranked := RankOffsets(table);
    var newScore, position := ScoreOffsets(table, ranked);
    offsetScoreTable, orderedKeyList := table, ranked;
    EmptyTableIffNoSharedPair(thisTable, compareTable, table);
    var score := Divide(newScore, numFrames);
    var similarity := score;
    if AboveOne(similarity) {
      similarity := Quotient(1, 1);
    }
    result := FingerprintSimilarity(position, score, similarity);
  }

  /**
   * Two tables without a common hash: no offset gets a vote, the ranking is empty and
   * the written method fails on them.
   */
  lemma DisjointTablesFail()
    ensures !AnySharedPair(map[1 := [0]], map[2 := [0]])
    ensures forall o :: Votes(map[1 := [0]], map[2 := [0]], o) == 0
  {
    SomeOffsetVoted(map[1 := [0]], map[2 := [0]]);
  }
}
