# musicg fingerprint core in Dafny

This project models the integer and byte logic of musicg's audio fingerprints and proves properties about it.

- **FingerprintManager** (`fingerprint_manager.dfy`)
  - The encoding tail of `extractFingerprint` (`EncodeFingerprint`): a frame whose robust point list holds exactly `numRobustPointsPerFrame` bins emits one 8-byte big-endian record per bin, laid out as frame (2 bytes), bin (2 bytes), intensity (4 bytes). Any other frame is filled with -1 and emits nothing.
  - `getNumFrames` (`GetNumFrames`).
  - `getRobustPointList` (`GetRobustPointList`): the bin axis is sliced into `numFilterBanks` bands. Each band goes through a band filter and is written back. The bins with a positive merged intensity are then grouped per frame.
  - A decoder `Decode` is the partner of the encoder. It is used to state the round trip.
- **MapRankDouble** (`map_rank.dfy`, with `order_statistics.dfy`)
  - `swap` and the Hoare-partition quickselect `locate` work in place on an `array`.
  - `getOrderedValue` returns the index-th order statistic.
  - `getOrderedKeyList` picks a pass value with the quickselect, keeps the passing keys and emits them in value order. It emits either exactly `numKeys` keys (sharp limit) or every passing key.
  - The reference definition is a full insertion sort, `SortAscending`.
- **FingerprintSimilarityComputer** (`similarity.dfy`): `getFingerprintsSimilarity`.
  - Offset voting between the two pair-position tables.
  - Ranking of the top 60 offsets, using the MapRankDouble model over the integer vote counts.
  - Smoothing each ranked offset with its neighbours' halved and quartered votes, and the acceptance threshold of 9.
  - The frame count of the shorter fingerprint, the final division and the clamp to 1.
- `results.dfy` holds the `Result` type that stands for Java's exceptions.
- `sequences.dfy` holds sequence facts shared by the modules: `Distinct`, multiset lemmas, and the enumeration of a hash set.

Points where the model follows the code's behaviour rather than its comments or names:
- **Zero frames.** `numFrames` is 0 when a fingerprint is shorter than one record. `score /= numFrames` (line 147 of `FingerprintSimilarityComputer.java`) is then a float division by zero. It gives positive infinity, or NaN when `newScore` is also 0, and infinity is then clamped to 1 (lines 150-152). The `Ratio` type models exactly that.
- **Final score.** The score is `newScore` divided by `numFrames` only (lines 137 and 147). The division by `orderedKeyList.size()` at line 136 only feeds a log statement, and that statement is what fails on an empty ranking (see Findings).
- **Reported position.** The comment at line 114 reads "get the highest score position", but line 115 assigns every key of the ranking in turn. The reported position is therefore the last key, the least-voted of the ranked offsets (`LastKeyLeastVoted`). The first key is the most voted (`TopKeyMostVoted`).
- **Ranking size.** The call `getOrderedKeyList(60, true)` at line 107 asks for a sharp limit. It yields exactly min(60, number of offsets) keys, even when further offsets tie with the last one. Which of several offsets tied at the cut-off reach the top 60 depends on the iteration order, and it can change `newScore`, because the smoothed score of an offset depends on its neighbours' votes. For example, take offsets 0 to 60 with 20 votes each: leaving out offset 30 (smoothed 50) or offset 0 (smoothed 35) gives two valid rankings whose scores differ by 15. The model allows every such choice (`IsTopOffsets`).

Java's `HashMap` iteration orders are not known. Each one is modelled as an arbitrary choice made with `:|`, and every contract holds for every order. This covers three iterations:
- the key set of the compared pair table (line 71 of `FingerprintSimilarityComputer.java`);
- the entry set of the ranked map (`Sequences.Enumerate`, via `EnumerateKeys`);
- the fresh `passedMap` of `getOrderedKeyList`, which gets its own `Sequences.Enumerate` order, independent of the ranked map's order.

Removing an entry through `passedMap`'s iterator is taken to keep the relative order of the remaining entries.

## Model

| member | source | states |
|---|---|---|
| MapRankDouble.Swap | src/com/musicg/math/rank/MapRankDouble.java:171-175 | exchanges `a[i]` and `a[j]` and changes nothing else; the multiset of the array is kept |
| MapRankDouble.PartitionRound | src/com/musicg/math/rank/MapRankDouble.java:145-154 | one round: the `++i`/`--j` scans stay inside `[left, right]` and stop at the first value not below, resp. not above, the pivot; when they have met, `j <= i <= j + 1` and the range is split around the pivot; otherwise the out-of-place pair is swapped, only positions `i` and `j` change and the multiset is kept |
| MapRankDouble.HoarePartition | src/com/musicg/math/rank/MapRankDouble.java:139-155 | the scans stay inside `[left, right]`; on exit `j <= i <= j + 1`; everything in `[left, j]` is at most the pivot and everything in `[i, right]` at least the pivot; only entries inside the range move, and the multiset is kept |
| MapRankDouble.Locate | src/com/musicg/math/rank/MapRankDouble.java:128-169 | a permutation that leaves entries outside `[left, right]` unchanged; when the index lies in the range, that entry ends up partitioned (smaller or equal before it, larger or equal after it); recursion on a strictly smaller range, so it terminates even when all values are equal |
| MapRankDouble.GetOrderedValue | src/com/musicg/math/rank/MapRankDouble.java:122-125 | fails with IndexOutOfBounds exactly when the index is outside the array; otherwise returns the entry at the index, which equals the index-th element of the sorted original array; the array is left partitioned at the index and its multiset is kept |
| OrderStatistics.SelectionAgreesWithSort | src/com/musicg/math/rank/MapRankDouble.java:122-125 | an array partitioned at k that is a permutation of s holds at k the k-th element of the sorted s |
| OrderStatistics.OrderStatisticUnique | src/com/musicg/math/rank/MapRankDouble.java:122-125 | the k-th order statistic, defined by counting smaller and smaller-or-equal elements, is unique |
| OrderStatistics.SortedIsOrderStatistic | src/com/musicg/math/rank/MapRankDouble.java:122-125 | the k-th element of the sorted sequence is the k-th order statistic |
| OrderStatistics.PartitionedIsOrderStatistic | src/com/musicg/math/rank/MapRankDouble.java:159-167 | an entry with smaller-or-equal values before it and larger-or-equal values after it is an order statistic |
| OrderStatistics.SortAscending | src/com/musicg/math/rank/MapRankDouble.java:74-77 | `Arrays.sort` of the value list: sorted, a permutation, same length |
| MapRankDouble.EnumerationSize | src/com/musicg/math/rank/MapRankDouble.java:40-48 | an iteration of the entry set visits `map.size()` entries, so the value array is filled exactly |
| MapRankDouble.FillValues | src/com/musicg/math/rank/MapRankDouble.java:40-48 | a fresh array holding the map's values in iteration order |
| MapRankDouble.FilterPassingMembers | src/com/musicg/math/rank/MapRankDouble.java:64-71 | a key is kept exactly when it is iterated and its value is `<=` the pass value (ascending) or `>=` it (descending) |
| MapRankDouble.FilterPassingDistinct | src/com/musicg/math/rank/MapRankDouble.java:64-71 | an iteration without repeated keys gives `passedMap` without repeated keys |
| MapRankDouble.CollectPassed | src/com/musicg/math/rank/MapRankDouble.java:59-72 | `passedMap` holds the passing keys in iteration order and `valueList` holds their values |
| MapRankDouble.EnoughPass | src/com/musicg/math/rank/MapRankDouble.java:51-71 | at least the clamped `numKeys` entries pass, and at least one, so the emission loop never runs out of values |
| MapRankDouble.FirstWithValue | src/com/musicg/math/rank/MapRankDouble.java:95-104 | the scan of `passedMap` stops at the first remaining entry whose value equals the target value; no earlier entry has that value |
| MapRankDouble.EmitKeys | src/com/musicg/math/rank/MapRankDouble.java:80-115 | emits max(numKeys, 1) distinct passed keys; the t-th key has the t-th value of the sorted list, read from the top when descending; no passed key left out beats an emitted one; with `numKeys` equal to the list length every passed key is emitted |
| MapRankDouble.EmissionIsRanking | src/com/musicg/math/rank/MapRankDouble.java:74-115 | the emitted keys form a ranking: distinct passing keys of the map in value order, no key left out beats a listed one, exactly max(numKeys, 1) of them with a sharp limit, all passing keys without |
| MapRankDouble.RankPassing | src/com/musicg/math/rank/MapRankDouble.java:59-115 | given the pass value at the target rank of the sorted values, filtering, sorting and emitting yield a ranking of the map for the clamped `numKeys`, whatever order `passedMap` iterates in |
| MapRankDouble.GetOrderedKeyList | src/com/musicg/math/rank/MapRankDouble.java:28-120 | `numKeys` is clamped to the map size; an empty map gives an empty list; the call fails with IndexOutOfBounds exactly when the target index (`numKeys` ascending, `size - numKeys` descending) is outside the array; otherwise the result is a ranking against the pass value at the target rank of the sorted values |
| FingerprintManager.GetNumFrames | src/com/musicg/fingerprint/FingerprintManager.java:49-59 | 0 for fewer than 8 bytes; otherwise the unsigned big-endian frame field of the last record plus one, which lies in [1, 65536] |
| FingerprintManager.TwoBytes | src/com/musicg/fingerprint/FingerprintManager.java:133-140 | the bytes `(byte)(v >> 8)` and `(byte)v` read back as `v mod 2^16` |
| FingerprintManager.FourBytes | src/com/musicg/fingerprint/FingerprintManager.java:142-147 | the four intensity bytes read back as `v mod 2^32` |
| FingerprintManager.FillCoordinates | src/com/musicg/fingerprint/FingerprintManager.java:110-124 | a fresh `numFrames x numRobustPointsPerFrame` array; a row holds the frame's bins when the list has exactly that many points, and -1 everywhere otherwise |
| FingerprintManager.AppendRecord | src/com/musicg/fingerprint/FingerprintManager.java:133-147 | appends exactly one 8-byte record: frame and bin as two big-endian bytes each, then the four intensity bytes |
| FingerprintManager.AppendFrame | src/com/musicg/fingerprint/FingerprintManager.java:130-148 | one frame appends the records of its coordinates other than -1, in coordinate order |
| FingerprintManager.CollectRecords | src/com/musicg/fingerprint/FingerprintManager.java:128-151 | the byte list is the records of every frame in ascending frame order |
| FingerprintManager.EncodeFingerprint | src/com/musicg/fingerprint/FingerprintManager.java:110-158 | the fresh fingerprint array holds exactly the encoding of the point lists |
| FingerprintManager.FillerFrameEmpty | src/com/musicg/fingerprint/FingerprintManager.java:118-131 | a frame filled with -1 emits no bytes |
| FingerprintManager.FrameContribution | src/com/musicg/fingerprint/FingerprintManager.java:112-131 | a frame with exactly `numRobustPointsPerFrame` points emits all of them (8 bytes each) and decodes to its points; any other frame emits nothing |
| FingerprintManager.RecordRoundTrip | src/com/musicg/fingerprint/FingerprintManager.java:133-147 | decoding a record gives the frame and the bin modulo 2^16 and the int32 intensity exactly |
| FingerprintManager.DecodeAppend | src/com/musicg/fingerprint/FingerprintManager.java:129-150 | records are decoded independently: decoding a concatenation concatenates the decodings |
| FingerprintManager.FrameRoundTrip | src/com/musicg/fingerprint/FingerprintManager.java:130-148 | the records of a frame decode to its points, in list order |
| FingerprintManager.EncodeLength | src/com/musicg/fingerprint/FingerprintManager.java:129-158 | the output has exactly 8 x (number of complete frames) x `numRobustPointsPerFrame` bytes |
| FingerprintManager.EncodeRoundTrip | src/com/musicg/fingerprint/FingerprintManager.java:129-158 | decoding the encoding gives the points of the complete frames, in ascending frame order and list order within a frame, with the decoded frame number and bin each taken modulo 2^16 (the 16-bit fields they are written into) |
| FingerprintManager.LastFrameComplete | src/com/musicg/fingerprint/FingerprintManager.java:129-150 | when the last frame is complete, `getNumFrames` of the encoding is the number of frames (for fewer than 65537 frames) |
| FingerprintManager.NumFramesOfEncoding | src/com/musicg/fingerprint/FingerprintManager.java:129-150 | for `numRobustPointsPerFrame > 0` and at most 65536 frames, `getNumFrames` of the encoding is the last complete frame plus one, and 0 when no frame is complete (with `numRobustPointsPerFrame` 0 every frame counts as complete but emits no bytes, and beyond 65536 frames the 16-bit frame field wraps) |
| FingerprintManager.ReadBand | src/com/musicg/fingerprint/FingerprintManager.java:211-217 | the band's intensities are bins `[b*bw, (b+1)*bw)` of every frame; fails with IndexOutOfBounds exactly when some row is too short |
| FingerprintManager.WriteBand | src/com/musicg/fingerprint/FingerprintManager.java:223-227 | writes the filtered band into bins `[b*bw, (b+1)*bw)` and nothing else; fails exactly when the filter output is too small |
| FingerprintManager.MergeBands | src/com/musicg/fingerprint/FingerprintManager.java:209-228 | succeeds exactly when every band can be read and its filter output is large enough; each bin below `numFilterBanks*bw` then holds its band's filtered value, and the remainder bins stay 0 |
| FingerprintManager.CollectPoints | src/com/musicg/fingerprint/FingerprintManager.java:230-243 | the robust point list holds the (frame, bin) pairs with a positive intensity, frame by frame and in ascending bin order |
| FingerprintManager.PositiveBinsExact | src/com/musicg/fingerprint/FingerprintManager.java:233-242 | a bin is listed exactly when its intensity is positive |
| FingerprintManager.PositiveBinsAscending | src/com/musicg/fingerprint/FingerprintManager.java:233-242 | the bins are listed in strictly ascending order |
| FingerprintManager.GroupByFrame | src/com/musicg/fingerprint/FingerprintManager.java:245-256 | one list per frame, each holding the bins of that frame's points in list order |
| FingerprintManager.ProjectAll | src/com/musicg/fingerprint/FingerprintManager.java:251-256 | grouping the collected points gives each frame exactly its positive bins |
| FingerprintManager.GetRobustPointList | src/com/musicg/fingerprint/FingerprintManager.java:201-260 | fails exactly on an empty spectrogram (IndexOutOfBounds), zero filter banks (DivisionByZero) or a band that cannot be read or written (IndexOutOfBounds); otherwise one list per frame holding that frame's robust bins |
| FingerprintManager.RobustBinsCharacterised | src/com/musicg/fingerprint/FingerprintManager.java:206-259 | a frame's list is strictly ascending and holds exactly the bins below `numFilterBanks*bw` whose filtered intensity is positive; remainder bins are never robust points |
| FingerprintSimilarityComputer.AddPairVotes | src/com/musicg/fingerprint/FingerprintSimilarityComputer.java:86-100 | every pair of positions adds one vote to its offset `thisPosition - compareWavePosition`; stored counts stay at least 1 |
| FingerprintSimilarityComputer.VoteOffsets | src/com/musicg/fingerprint/FingerprintSimilarityComputer.java:71-101 | `offset_Score_Table[o]` is the number of (shared hash, p, q) triples with `p - q = o`, in any hash order; a missing hash contributes nothing; an offset is stored exactly when it has a vote |
| FingerprintSimilarityComputer.HashVotesRemove | src/com/musicg/fingerprint/FingerprintSimilarityComputer.java:71-79 | the vote total does not depend on the order in which hashes are visited |
| FingerprintSimilarityComputer.PairVotesPositive | src/com/musicg/fingerprint/FingerprintSimilarityComputer.java:86-99 | a hash votes for an offset exactly when some pair of its positions has that difference |
| FingerprintSimilarityComputer.VotesPositive | src/com/musicg/fingerprint/FingerprintSimilarityComputer.java:71-101 | an offset has votes exactly when a hash held by both tables has positions p and q with `p - q` equal to it |
| FingerprintSimilarityComputer.SomeOffsetVoted | src/com/musicg/fingerprint/FingerprintSimilarityComputer.java:75-101 | some offset has a vote exactly when the tables share a hash with positions on both sides |
| FingerprintSimilarityComputer.VotesShift | src/com/musicg/fingerprint/FingerprintSimilarityComputer.java:88-92 | shifting every position of the first fingerprint by d moves every offset's votes to the offset plus d |
| Sequences.Enumerate | src/com/musicg/math/rank/MapRankDouble.java:95-96 | an iteration order of a hash set: every element exactly once, in an order the model leaves open |
| FingerprintSimilarityComputer.EnumerateKeys | src/com/musicg/math/rank/MapRankDouble.java:44-48 | the offset table's entries are enumerated once each, in some order |
| FingerprintSimilarityComputer.RankOffsets | src/com/musicg/fingerprint/FingerprintSimilarityComputer.java:103-107 | the ranking never fails and yields min(60, offsets) distinct offsets, from the most voted down, with no offset left out voted above a listed one |
| FingerprintSimilarityComputer.TopKeyMostVoted | src/com/musicg/fingerprint/FingerprintSimilarityComputer.java:103-107 | the first ranked offset has the most votes of all offsets |
| FingerprintSimilarityComputer.LastKeyLeastVoted | src/com/musicg/fingerprint/FingerprintSimilarityComputer.java:110-115 | the reported position, the last ranked key, has the fewest votes among the ranked offsets |
| FingerprintSimilarityComputer.Contribution | src/com/musicg/fingerprint/FingerprintSimilarityComputer.java:132 | an offset adds 0 or a score of at least 9 |
| FingerprintSimilarityComputer.NewScore | src/com/musicg/fingerprint/FingerprintSimilarityComputer.java:105-132 | `newScore` is at least 9 times the number of accepted offsets, so it is non-negative, and it is 0 exactly when no offset is accepted |
| FingerprintSimilarityComputer.NewScorePermutation | src/com/musicg/fingerprint/FingerprintSimilarityComputer.java:108-134 | `newScore` does not depend on the order of the ranked keys within one ranked set |
| FingerprintSimilarityComputer.SmoothedScore | src/com/musicg/fingerprint/FingerprintSimilarityComputer.java:117-131 | the offset's own votes plus half the votes at distance 1 and a quarter at distance 2, using Java's truncating integer division, with a neighbour that is absent from the table adding nothing |
| FingerprintSimilarityComputer.ScoreOffsets | src/com/musicg/fingerprint/FingerprintSimilarityComputer.java:108-135 | the loop computes `newScore` from the smoothed scores `t[k] + t[k-1]/2 + t[k-2]/4 + t[k+1]/2 + t[k+2]/4` (integer division, absent neighbours 0) that reach 9; the position is the last key, or Integer.MIN_VALUE for an empty list |
| FingerprintSimilarityComputer.NumFramesOf | src/com/musicg/fingerprint/FingerprintSimilarityComputer.java:57-62 | the frame count of the fingerprint with fewer bytes (fingerprint1 on equal lengths) lies in [0, 65536] and is 0 exactly when either fingerprint is shorter than one record |
| FingerprintSimilarityComputer.Divide | src/com/musicg/fingerprint/FingerprintSimilarityComputer.java:147 | `score /= numFrames`: the exact quotient for a positive frame count, NaN for 0/0, positive infinity otherwise |
| FingerprintSimilarityComputer.Clamp | src/com/musicg/fingerprint/FingerprintSimilarityComputer.java:148-152 | the similarity is never above 1 and is NaN exactly when the score is |
| FingerprintSimilarityComputer.SimilarityInUnitRange | src/com/musicg/fingerprint/FingerprintSimilarityComputer.java:137-156 | with `numFrames > 0` the score is `newScore / numFrames` and the similarity is min(score, 1), a fraction in [0, 1] |
| FingerprintSimilarityComputer.NoOffsetsScoreZero | src/com/musicg/fingerprint/FingerprintSimilarityComputer.java:105-156 | an empty ranking gives position Integer.MIN_VALUE, and, when `numFrames > 0`, score and similarity 0 (with `numFrames` 0 the score is 0/0, NaN) |
| FingerprintSimilarityComputer.EmptyTableIffNoSharedPair | src/com/musicg/fingerprint/FingerprintSimilarityComputer.java:71-110 | the offset table is empty exactly when no hash is shared with positions on both sides |
| FingerprintSimilarityComputer.GetFingerprintsSimilarity | src/com/musicg/fingerprint/FingerprintSimilarityComputer.java:51-159 | the vote table, the top-60 ranking and the result as written; fails with DivisionByZero exactly when the tables share no hash with positions on both sides; otherwise returns the last ranked key, `newScore / numFrames` and its clamp |
| FingerprintSimilarityComputer.GetFingerprintsSimilarityGuarded | src/com/musicg/fingerprint/FingerprintSimilarityComputer.java:51-159 | the same result without the failing log division: it never fails; tables with no shared hash give position Integer.MIN_VALUE, and, when `numFrames > 0`, score and similarity 0 (with `numFrames` 0 the score is 0/0, NaN) |
| FingerprintSimilarityComputer.DisjointTablesFail | src/com/musicg/fingerprint/FingerprintSimilarityComputer.java:136 | the tables {1: [0]} and {2: [0]} give no vote to any offset, so the written method fails on them |

## Left out

- Resampling, the `Wave` classes and the spectrogram computation in `extractFingerprint` (`FingerprintManager.java:86-104`) are not part of this model. The encoder takes the robust point lists as input.
- The intensity quantisation `(int)(d * Integer.MAX_VALUE)` (`FingerprintManager.java:143`) is floating point. The encoder takes it as a function from (frame, bin) to an int32.
- Spectrogram intensities are modelled as `real`. NaN, infinities and float rounding of the `double` values are not modelled. The positivity test of `getRobustPointList` is exact on the reals.
- The band filter `TopManyPointsProcessorChain` is not part of this model. `GetRobustPointList` takes it as a function from band to band, and the filter is assumed not to throw.
- File and stream I/O are left out: `getFingerprintFromFile`, `getFingerprintFromInputStream` and `saveFingerprintAsFile`.
- `PairManager` and its hash construction are not part of this model. The pair-position tables are inputs of `GetFingerprintsSimilarity`.
- `MapRankInteger` is not part of this model. The offsets are ranked by the `MapRankDouble` model, whose values are integers.
- MapRankDouble.GetOrderedKeyList: values are `int` instead of `double`. The code only compares them, but NaN and signed zeros are not modelled.
- FingerprintSimilarityComputer.ScoreOffsets: `score` is a Java `float` but is modelled as an exact integer. The same holds for the running sum `newScore += score` at line 132, which is a `float` addition too. The model and the source agree while the scores and `newScore` stay below 2^24.
- FingerprintSimilarityComputer.Divide: the float quotient is modelled as an exact rational, not rounded to the nearest float. The decision "above 1" and the clamped value agree with it, but the stored score is not rounded.
- Java `int` overflow of offsets, vote counts and `newScore` is not modelled; all are unbounded integers. The same goes for the midpoint `(left + right) / 2` in `locate` (MapRankDouble.java:130), which overflows only for arrays of more than 2^30 entries.
- The `System.out` logging is left out. The one log statement that can fail is modelled as that failure.
- The local variables `coordinates` and `fingerprint` of `extractFingerprint` are modelled as the returned array and matrix. The `FingerprintSimilarity` setters are modelled as a returned value.
- FingerprintManager.GetRobustPointList: `numFilterBanks` is a natural number. A negative configuration value is not modelled.
- FingerprintManager.EncodeFingerprint: `numRobustPointsPerFrame` is a natural number. The NegativeArraySizeException that `new int[numFrames][numRobustPointsPerFrame]` raises on a negative configuration value is not modelled.
- The experiment driver `src/com/musicg/experiment/test/Test1.java` is not part of this model.

## Findings

| source | as written | input that shows it | evidently intended | confidence | as-written member | corrected member |
|---|---|---|---|---|---|---|
| src/com/musicg/fingerprint/FingerprintSimilarityComputer.java:136 | a log line computes `newScore / orderedKeyList.size()` in integer arithmetic before the result is built, so an empty ranking throws ArithmeticException | pair tables with no common hash, such as {1: [0]} and {2: [0]}: no offset gets a vote and the ranking is empty | no overlap yields similarity 0 with position Integer.MIN_VALUE | high; not executed | FingerprintSimilarityComputer.GetFingerprintsSimilarity, FingerprintSimilarityComputer.DisjointTablesFail | FingerprintSimilarityComputer.GetFingerprintsSimilarityGuarded |
