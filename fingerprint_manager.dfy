/**
 * The fingerprint byte format of FingerprintManager: the frame count read back from
 * a fingerprint, the encoding of per-frame robust points into 8-byte records, and the
 * grouping of filtered spectrogram intensities into per-frame robust point lists.
 */
module FingerprintManager {
  import opened Results

  /** A fingerprint byte, seen unsigned (the `b & 0xff` view of a Java byte). */
  type Byte = b: int | 0 <= b < 256

  /** A Java int. */
  type Int32 = v: int | -0x8000_0000 <= v < 0x8000_0000

  /** The unsigned view of `(byte) (v >> s)` where scale is 2^s; Java's >> floors like Dafny's / here. */
  function ByteOf(v: int, scale: int): (b: Byte)
    requires scale > 0
  {
    (v / scale) % 256
  }

  // ---------------------------------------------------------------------------
  // Arithmetic of the byte split
  // ---------------------------------------------------------------------------

  /** A positive multiple of m is at least m. */
  lemma MulAtLeast(t: int, m: int)
    requires t >= 1 && m > 0
    ensures t * m >= m
  {
    assert t * m == (t - 1) * m + m;
  }

  /** Euclidean division is determined by any decomposition with an in-range remainder. */
  lemma ModUnique(v: int, m: int, a: int, b: int)
    requires m > 0 && v == a * m + b && 0 <= b < m
    ensures v % m == b && v / m == a
  {
    var a', b' := v / m, v % m;
    assert v == a' * m + b';
    assert a * m - a' * m == (a - a') * m;
    if a > a' {
      MulAtLeast(a - a', m);
    } else if a < a' {
      MulAtLeast(a' - a, m);
    }
  }

  /** a * (c + 1) distributed. */
  lemma MulSucc(a: int, c: int)
    ensures a * (c + 1) == a * c + a
  {
  }

  /** (q2 * 256 + s) * d regrouped. */
  lemma Regroup(q2: int, s: int, d: int)
    ensures (q2 * 256 + s) * d == q2 * (256 * d) + s * d
  {
  }

  /** Splitting off the byte above scale d: the byte times d plus what lies below it. */
  lemma ByteSplit(v: int, d: int)
    requires d > 0
    ensures ((v / d) % 256) * d + v % d == v % (256 * d)
  {
    var q, r := v / d, v % d;
    var q2, s := q / 256, q % 256;
    assert v == q * d + r;
    Regroup(q2, s, d);
    assert 0 <= s * d <= 255 * d by {
      MulBounds(s, 255, d);
    }
    ModUnique(v, 256 * d, q2, s * d + r);
  }

  /** Multiplying a bounded non-negative factor by a positive one. */
  lemma MulBounds(s: int, hi: int, d: int)
    requires 0 <= s <= hi && d > 0
    ensures 0 <= s * d <= hi * d
  {
    assert hi * d - s * d == (hi - s) * d;
  }

  /** Two big-endian bytes give the value modulo 2^16. */
  lemma TwoBytes(v: int)
    ensures ByteOf(v, 0x100) * 0x100 + ByteOf(v, 1) == v % 0x1_0000
  {
    ByteSplit(v, 0x100);
  }

  /** Four big-endian bytes give the value modulo 2^32. */
  lemma FourBytes(v: int)
    ensures ByteOf(v, 0x100_0000) * 0x100_0000 + ByteOf(v, 0x1_0000) * 0x1_0000
            + ByteOf(v, 0x100) * 0x100 + ByteOf(v, 1) == v % 0x1_0000_0000
  {
    ByteSplit(v, 0x100);
    ByteSplit(v, 0x1_0000);
    ByteSplit(v, 0x100_0000);
  }

  // ---------------------------------------------------------------------------
  // getNumFrames
  // ---------------------------------------------------------------------------

  /**
   * getNumFrames: the frame field of the last 8-byte record plus one, or 0 for a
   * fingerprint shorter than one record. The frame field is two unsigned bytes.
   */
  function GetNumFrames(fingerprint: seq<Byte>): (numFrames: int)
    ensures |fingerprint| < 8 ==> numFrames == 0
    ensures |fingerprint| >= 8 ==> 1 <= numFrames <= 0x1_0000
  {
    if |fingerprint| < 8 then 0
    else (fingerprint[|fingerprint| - 8] as int) * 0x100 + fingerprint[|fingerprint| - 7] as int + 1
  }

  // ---------------------------------------------------------------------------
  // The record format
  // ---------------------------------------------------------------------------

  /** One record: frame (2 bytes), bin (2 bytes), intensity (4 bytes), all big-endian. */
  function Record(x: int, y: int, intensity: Int32): (r: seq<Byte>)
    ensures |r| == 8
  {
    [ByteOf(x, 0x100), ByteOf(x, 1),
     ByteOf(y, 0x100), ByteOf(y, 1),
     ByteOf(intensity, 0x100_0000), ByteOf(intensity, 0x1_0000), ByteOf(intensity, 0x100), ByteOf(intensity, 1)]
  }

  /** The coordinates row of a frame: its points when there are exactly k of them, else k times -1. */
  function Coordinates(points: seq<int>, k: nat): (c: seq<int>)
    ensures |c| == k
  {
    if |points| == k then points else seq(k, _ => -1)
  }

  /** The bytes of frame x: one record per coordinate that is not -1, in row order. */
  function FrameRecords(x: int, coords: seq<int>, intensity: (int, int) -> Int32): (bytes: seq<Byte>)
    decreases |coords|
  {
    if coords == [] then []
    else
      var y := coords[|coords| - 1];
      FrameRecords(x, coords[..|coords| - 1], intensity) + (if y != -1 then Record(x, y, intensity(x, y)) else [])
  }

  /** The fingerprint of per-frame point lists: the frames' records in frame order. */
  function Encode(pointsLists: seq<seq<int>>, k: nat, intensity: (int, int) -> Int32): (fingerprint: seq<Byte>)
    decreases |pointsLists|
  {
    if pointsLists == [] then []
    else
      var x := |pointsLists| - 1;
      Encode(pointsLists[..x], k, intensity) + FrameRecords(x, Coordinates(pointsLists[x], k), intensity)
  }

  /** The coordinates matrix of extractFingerprint: row x is Coordinates(pointsLists[x], k). */
  method FillCoordinates(pointsLists: seq<seq<int>>, k: nat) returns (coordinates: array2<int>)
    ensures fresh(coordinates)
    ensures coordinates.Length0 == |pointsLists| && coordinates.Length1 == k
    ensures forall x, y :: 0 <= x < |pointsLists| && 0 <= y < k ==> coordinates[x, y] == Coordinates(pointsLists[x], k)[y]
  {
    var numFrames := |pointsLists|;
    coordinates := new int[numFrames, k];
    for x := 0 to numFrames
      invariant forall x', y :: 0 <= x' < x && 0 <= y < k ==> coordinates[x', y] == Coordinates(pointsLists[x'], k)[y]
    {
      if |pointsLists[x]| == k {
        for y := 0 to k
          invariant forall x', y' :: 0 <= x' < x && 0 <= y' < k ==> coordinates[x', y'] == Coordinates(pointsLists[x'], k)[y']
          invariant forall y' :: 0 <= y' < y ==> coordinates[x, y'] == pointsLists[x][y']
        {
          coordinates[x, y] := pointsLists[x][y];
        }
      } else {
        // use -1 to fill the empty byte
        for y := 0 to k
          invariant forall x', y' :: 0 <= x' < x && 0 <= y' < k ==> coordinates[x', y'] == Coordinates(pointsLists[x'], k)[y']
          invariant forall y' :: 0 <= y' < y ==> coordinates[x, y'] == -1
        {
          coordinates[x, y] := -1;
        }
      }
    }
  }

  /** One more coordinate appends its record, unless it is -1. */
  lemma FrameRecordsStep(x: int, row: seq<int>, j: int, intensity: (int, int) -> Int32)
    requires 0 <= j < |row|
    ensures FrameRecords(x, row[..j + 1], intensity)
            == FrameRecords(x, row[..j], intensity) + (if row[j] != -1 then Record(x, row[j], intensity(x, row[j])) else [])
  {
    assert row[..j + 1][..j] == row[..j];
  }

  /** One more frame appends its records. */
  lemma EncodeStep(pointsLists: seq<seq<int>>, i: int, k: nat, intensity: (int, int) -> Int32)
    requires 0 <= i < |pointsLists|
    ensures Encode(pointsLists[..i + 1], k, intensity)
            == Encode(pointsLists[..i], k, intensity) + FrameRecords(i, Coordinates(pointsLists[i], k), intensity)
  {
    assert pointsLists[..i + 1][..i] == pointsLists[..i];
  }

  /** Appends one record: first 2 bytes x, next 2 bytes y, next 4 bytes the intensity. */
  method AppendRecord(byteList: seq<Byte>, x: int, y: int, v: Int32) returns (extended: seq<Byte>)
    ensures extended == byteList + Record(x, y, v)
  {
    extended := byteList + [ByteOf(x, 0x100), ByteOf(x, 1)];
    extended := extended + [ByteOf(y, 0x100), ByteOf(y, 1)];
    extended := extended + [ByteOf(v, 0x100_0000), ByteOf(v, 0x1_0000), ByteOf(v, 0x100), ByteOf(v, 1)];
  }

  /** The records of frame i appended to the byte list, one per coordinate of its row that is not -1. */
  method AppendFrame(byteList: seq<Byte>, i: int, k: nat, intensity: (int, int) -> Int32,
                     coordinates: array2<int>, ghost row: seq<int>)
    returns (extended: seq<Byte>)
    requires 0 <= i < coordinates.Length0 && coordinates.Length1 == k && |row| == k
    requires forall y :: 0 <= y < k ==> coordinates[i, y] == row[y]
    ensures extended == byteList + FrameRecords(i, row, intensity)
  {
    extended := byteList;
    for j := 0 to k
      invariant extended == byteList + FrameRecords(i, row[..j], intensity)
    {
      FrameRecordsStep(i, row, j, intensity);
      if coordinates[i, j] != -1 {
        var y := coordinates[i, j];
        extended := AppendRecord(extended, i, y, intensity(i, y));
      }
    }
    assert row[..k] == row;
  }

  /** The byte list of extractFingerprint: one record for each coordinate that is not -1, frame by frame. */
  method CollectRecords(pointsLists: seq<seq<int>>, k: nat, intensity: (int, int) -> Int32, coordinates: array2<int>)
    returns (byteList: seq<Byte>)
    requires coordinates.Length0 == |pointsLists| && coordinates.Length1 == k
    requires forall x, y :: 0 <= x < |pointsLists| && 0 <= y < k ==> coordinates[x, y] == Coordinates(pointsLists[x], k)[y]
    ensures byteList == Encode(pointsLists, k, intensity)
  {
    var numFrames := |pointsLists|;
    byteList := [];
    for i := 0 to numFrames
      invariant byteList == Encode(pointsLists[..i], k, intensity)
    {
      byteList := AppendFrame(byteList, i, k, intensity, coordinates, Coordinates(pointsLists[i], k));
      EncodeStep(pointsLists, i, k, intensity);
    }
    assert pointsLists[..numFrames] == pointsLists;
  }

  /**
   * The encoding tail of extractFingerprint: fill the coordinates matrix (-1 for a frame
   * without exactly numRobustPointsPerFrame points), append one record per coordinate
   * that is not -1 to the byte list, then copy the list into the fingerprint array.
   * intensity(x, y) stands for `(int) (spectrogramData[x][y] * Integer.MAX_VALUE)`.
   */
  method EncodeFingerprint(pointsLists: seq<seq<int>>, numRobustPointsPerFrame: nat, intensity: (int, int) -> Int32)
    returns (fingerprint: array<Byte>)
    ensures fresh(fingerprint)
    ensures fingerprint[..] == Encode(pointsLists, numRobustPointsPerFrame, intensity)
  {
    var coordinates := FillCoordinates(pointsLists, numRobustPointsPerFrame);
    var byteList := CollectRecords(pointsLists, numRobustPointsPerFrame, intensity, coordinates);
    fingerprint := new Byte[|byteList|];
    var pointer := 0;
    while pointer < |byteList|
      invariant 0 <= pointer <= |byteList|
      invariant fingerprint[..pointer] == byteList[..pointer]
    {
      fingerprint[pointer] := byteList[pointer];
      pointer := pointer + 1;
    }
  }

  // ---------------------------------------------------------------------------
  // Reading records back
  // ---------------------------------------------------------------------------

  /** A decoded record. */
  datatype Point = Point(frame: int, bin: int, intensity: int)

  /** The Java int whose 32-bit pattern is the unsigned value u. */
  function Signed32(u: int): (v: int)
  {
    if u >= 0x8000_0000 then u - 0x1_0000_0000 else u
  }

  /** Reads one big-endian record: two unsigned 16-bit fields and a signed 32-bit one. */
  function DecodeRecord(r: seq<Byte>): Point
    requires |r| == 8
  {
    Point(r[0] as int * 0x100 + r[1] as int,
          r[2] as int * 0x100 + r[3] as int,
          Signed32(r[4] as int * 0x100_0000 + r[5] as int * 0x1_0000 + r[6] as int * 0x100 + r[7] as int))
  }

  /** Reads a fingerprint record by record. */
  function Decode(fingerprint: seq<Byte>): (points: seq<Point>)
    requires |fingerprint| % 8 == 0
    ensures |points| == |fingerprint| / 8
    decreases |fingerprint|
  {
    if fingerprint == [] then []
    else Decode(fingerprint[..|fingerprint| - 8]) + [DecodeRecord(fingerprint[|fingerprint| - 8..])]
  }

  /** The 32-bit pattern of a Java int reads back as that int. */
  lemma Signed32RoundTrip(v: Int32)
    ensures Signed32(v % 0x1_0000_0000) == v
  {
    if v < 0 {
      ModUnique(v, 0x1_0000_0000, -1, v + 0x1_0000_0000);
    } else {
      ModUnique(v, 0x1_0000_0000, 0, v);
    }
  }

  /** A record reads back as its frame and bin modulo 2^16 and its intensity exactly. */
  lemma RecordRoundTrip(x: int, y: int, intensity: Int32)
    ensures DecodeRecord(Record(x, y, intensity)) == Point(x % 0x1_0000, y % 0x1_0000, intensity)
  {
    var r := Record(x, y, intensity);
    assert r[0] as int * 0x100 + r[1] as int == x % 0x1_0000 by {
      TwoBytes(x);
    }
    assert r[2] as int * 0x100 + r[3] as int == y % 0x1_0000 by {
      TwoBytes(y);
    }
    assert r[4] as int * 0x100_0000 + r[5] as int * 0x1_0000 + r[6] as int * 0x100 + r[7] as int
           == intensity % 0x1_0000_0000 by {
      FourBytes(intensity);
    }
    Signed32RoundTrip(intensity);
  }

  /** A record on its own decodes to its one point. */
  lemma RecordDecodes(x: int, y: int, intensity: Int32)
    ensures Decode(Record(x, y, intensity)) == [Point(x % 0x1_0000, y % 0x1_0000, intensity)]
  {
    DecodeSingle(Record(x, y, intensity));
    RecordRoundTrip(x, y, intensity);
  }

  lemma {:induction false} DecodeAppend(a: seq<Byte>, b: seq<Byte>)
    requires |a| % 8 == 0 && |b| % 8 == 0
    ensures Decode(a + b) == Decode(a) + Decode(b)
    decreases |b|
  {
    if b == [] {
      assert a + b == a;
    } else {
      var b' := b[..|b| - 8];
      assert (a + b)[..|a + b| - 8] == a + b';
      assert (a + b)[|a + b| - 8..] == b[|b| - 8..];
      DecodeAppend(a, b');
    }
  }

  /** A single record decodes to a single point. */
  lemma DecodeSingle(r: seq<Byte>)
    requires |r| == 8
    ensures Decode(r) == [DecodeRecord(r)]
  {
    assert r[..0] == [] && r[0..] == r;
  }

  /** No point list holds the -1 that extractFingerprint uses as filler. */
  ghost predicate NoFiller(pointsLists: seq<seq<int>>)
  {
    forall x, t :: 0 <= x < |pointsLists| && 0 <= t < |pointsLists[x]| ==> pointsLists[x][t] != -1
  }

  /** The points a frame contributes: each bin, with frame and bin truncated to 16 bits. */
  function FramePoints(x: int, bins: seq<int>, intensity: (int, int) -> Int32): (points: seq<Point>)
    ensures |points| == |bins|
  {
    seq(|bins|, t requires 0 <= t < |bins| => Point(x % 0x1_0000, bins[t] % 0x1_0000, intensity(x, bins[t])))
  }

  /** The points of a row are those of its front followed by that of its last bin. */
  lemma FramePointsSnoc(x: int, row: seq<int>, intensity: (int, int) -> Int32)
    requires row != []
    ensures FramePoints(x, row, intensity)
            == FramePoints(x, row[..|row| - 1], intensity)
               + [Point(x % 0x1_0000, row[|row| - 1] % 0x1_0000, intensity(x, row[|row| - 1]))]
  {
  }

  /** The points of every frame with exactly k points, frame after frame. */
  function CompletePoints(pointsLists: seq<seq<int>>, k: nat, intensity: (int, int) -> Int32): seq<Point>
    decreases |pointsLists|
  {
    if pointsLists == [] then []
    else
      var x := |pointsLists| - 1;
      CompletePoints(pointsLists[..x], k, intensity) + (if |pointsLists[x]| == k then FramePoints(x, pointsLists[x], intensity) else [])
  }

  /** The number of frames with exactly k points. */
  function CompleteFrames(pointsLists: seq<seq<int>>, k: nat): (n: nat)
    ensures n <= |pointsLists|
    decreases |pointsLists|
  {
    if pointsLists == [] then 0
    else
      var x := |pointsLists| - 1;
      CompleteFrames(pointsLists[..x], k) + (if |pointsLists[x]| == k then 1 else 0)
  }

  /** The last frame with exactly k points, or -1 when there is none. */
  function LastComplete(pointsLists: seq<seq<int>>, k: nat): (x: int)
    ensures -1 <= x < |pointsLists|
    ensures 0 <= x ==> |pointsLists[x]| == k
    decreases |pointsLists|
  {
    if pointsLists == [] then -1
    else if |pointsLists[|pointsLists| - 1]| == k then |pointsLists| - 1
    else LastComplete(pointsLists[..|pointsLists| - 1], k)
  }

  /** A frame filled with -1 emits nothing. */
  lemma {:induction false} FillerFrameEmpty(x: int, k: nat, intensity: (int, int) -> Int32)
    ensures FrameRecords(x, seq(k, _ => -1), intensity) == []
  {
    if k > 0 {
      assert seq(k, _ => -1)[..k - 1] == seq(k - 1, _ => -1);
      FillerFrameEmpty(x, k - 1, intensity);
    }
  }

  /** A row without filler emits one record per bin. */
  lemma {:induction false} FrameLength(x: int, row: seq<int>, intensity: (int, int) -> Int32)
    requires forall t :: 0 <= t < |row| ==> row[t] != -1
    ensures |FrameRecords(x, row, intensity)| == 8 * |row|
    decreases |row|
  {
    if row != [] {
      FrameLength(x, row[..|row| - 1], intensity);
    }
  }

  /** The records of a row without filler read back as its points. */
  lemma {:induction false} FrameRoundTrip(x: int, row: seq<int>, intensity: (int, int) -> Int32)
    requires forall t :: 0 <= t < |row| ==> row[t] != -1
    ensures |FrameRecords(x, row, intensity)| % 8 == 0
    ensures Decode(FrameRecords(x, row, intensity)) == FramePoints(x, row, intensity)
    decreases |row|
  {
    FrameLength(x, row, intensity);
    if row != [] {
      var n := |row| - 1;
      var init := row[..n];
      var r := Record(x, row[n], intensity(x, row[n]));
      var front := FrameRecords(x, init, intensity);
      assert FrameRecords(x, row, intensity) == front + r;
      assert Decode(front) == FramePoints(x, init, intensity) by {
        FrameRoundTrip(x, init, intensity);
      }
      RecordDecodes(x, row[n], intensity(x, row[n]));
      assert Decode(front + r) == Decode(front) + Decode(r) by {
        FrameLength(x, init, intensity);
        DecodeAppend(front, r);
      }
      FramePointsSnoc(x, row, intensity);
    }
  }

  /** What a frame of the encoder emits, and how it reads back. */
  lemma FrameContribution(x: int, points: seq<int>, k: nat, intensity: (int, int) -> Int32)
    requires forall t :: 0 <= t < |points| ==> points[t] != -1
    ensures |points| == k ==> FrameRecords(x, Coordinates(points, k), intensity) == FrameRecords(x, points, intensity)
    ensures |points| != k ==> FrameRecords(x, Coordinates(points, k), intensity) == []
    ensures |FrameRecords(x, Coordinates(points, k), intensity)| == if |points| == k then 8 * k else 0
    ensures Decode(FrameRecords(x, Coordinates(points, k), intensity))
            == if |points| == k then FramePoints(x, points, intensity) else []
  {
    if |points| == k {
      FrameLength(x, points, intensity);
      FrameRoundTrip(x, points, intensity);
    } else {
      FillerFrameEmpty(x, k, intensity);
    }
  }

  /** A fingerprint holds 8 * numRobustPointsPerFrame bytes per complete frame and nothing else. */
  lemma {:induction false} EncodeLength(pointsLists: seq<seq<int>>, k: nat, intensity: (int, int) -> Int32)
    requires NoFiller(pointsLists)
    ensures |Encode(pointsLists, k, intensity)| == 8 * k * CompleteFrames(pointsLists, k)
    decreases |pointsLists|
  {
    if pointsLists != [] {
      var x := |pointsLists| - 1;
      var init := pointsLists[..x];
      var front := Encode(init, k, intensity);
      var frame := FrameRecords(x, Coordinates(pointsLists[x], k), intensity);
      assert Encode(pointsLists, k, intensity) == front + frame;
      var c := CompleteFrames(init, k);
      assert |front| == 8 * k * c by {
        assert NoFiller(init);
        EncodeLength(init, k, intensity);
      }
      assert |frame| == if |pointsLists[x]| == k then 8 * k else 0 by {
        FrameContribution(x, pointsLists[x], k, intensity);
      }
      MulSucc(8 * k, c);
    }
  }

  /**
   * Decoding a fingerprint gives, in frame order, the points of exactly the frames that
   * had numRobustPointsPerFrame points, each frame and bin modulo 2^16 and each intensity exact.
   */
  lemma {:induction false} EncodeRoundTrip(pointsLists: seq<seq<int>>, k: nat, intensity: (int, int) -> Int32)
    requires NoFiller(pointsLists)
    ensures |Encode(pointsLists, k, intensity)| % 8 == 0
    ensures Decode(Encode(pointsLists, k, intensity)) == CompletePoints(pointsLists, k, intensity)
    decreases |pointsLists|
  {
    if pointsLists != [] {
      var x := |pointsLists| - 1;
      var init := pointsLists[..x];
      var front := Encode(init, k, intensity);
      var frame := FrameRecords(x, Coordinates(pointsLists[x], k), intensity);
      assert Encode(pointsLists, k, intensity) == front + frame;
      assert |front| % 8 == 0 && Decode(front) == CompletePoints(init, k, intensity) by {
        assert NoFiller(init);
        EncodeRoundTrip(init, k, intensity);
      }
      assert |frame| % 8 == 0 && Decode(frame) == if |pointsLists[x]| == k then FramePoints(x, pointsLists[x], intensity) else [] by {
        FrameContribution(x, pointsLists[x], k, intensity);
      }
      DecodeAppend(front, frame);
    }
  }

  /** getNumFrames of bytes ending in a record reads that record's frame field. */
  lemma NumFramesOfLastRecord(front: seq<Byte>, x: int, y: int, intensity: Int32)
    ensures GetNumFrames(front + Record(x, y, intensity)) == x % 0x1_0000 + 1
  {
    var last := Record(x, y, intensity);
    var fp := front + last;
    assert fp[|fp| - 8] == last[0] && fp[|fp| - 7] == last[1];
    TwoBytes(x);
  }

  /** A complete last frame ends the encoding with the record of its last bin. */
  lemma EncodingEndsWithLastBin(pointsLists: seq<seq<int>>, k: nat, intensity: (int, int) -> Int32)
    requires pointsLists != [] && k > 0 && |pointsLists[|pointsLists| - 1]| == k
    requires pointsLists[|pointsLists| - 1][k - 1] != -1
    ensures var x := |pointsLists| - 1;
            var y := pointsLists[x][k - 1];
            Encode(pointsLists, k, intensity)
            == Encode(pointsLists[..x], k, intensity) + FrameRecords(x, pointsLists[x][..k - 1], intensity) + Record(x, y, intensity(x, y))
  {
    var x := |pointsLists| - 1;
    var row := pointsLists[x];
    assert Coordinates(row, k) == row;
    assert row[..k - 1] == row[..|row| - 1];
  }

  /** When the last frame is complete, the last record carries its number. */
  lemma LastFrameComplete(pointsLists: seq<seq<int>>, k: nat, intensity: (int, int) -> Int32)
    requires pointsLists != [] && k > 0 && |pointsLists| <= 0x1_0000
    requires |pointsLists[|pointsLists| - 1]| == k && pointsLists[|pointsLists| - 1][k - 1] != -1
    ensures GetNumFrames(Encode(pointsLists, k, intensity)) == |pointsLists|
  {
    var x := |pointsLists| - 1;
    var y := pointsLists[x][k - 1];
    var front := Encode(pointsLists[..x], k, intensity) + FrameRecords(x, pointsLists[x][..k - 1], intensity);
    EncodingEndsWithLastBin(pointsLists, k, intensity);
    assert Encode(pointsLists, k, intensity) == front + Record(x, y, intensity(x, y));
    NumFramesOfLastRecord(front, x, y, intensity(x, y));
    assert x % 0x1_0000 == x by {
      ModUnique(x, 0x1_0000, 0, x);
    }
  }

  /**
   * getNumFrames of a fingerprint is one more than its last complete frame (0 when no
   * frame is complete), as long as frame numbers fit the 16-bit field.
   */
  lemma {:induction false} NumFramesOfEncoding(pointsLists: seq<seq<int>>, k: nat, intensity: (int, int) -> Int32)
    requires NoFiller(pointsLists) && k > 0 && |pointsLists| <= 0x1_0000
    ensures GetNumFrames(Encode(pointsLists, k, intensity)) == LastComplete(pointsLists, k) + 1
    decreases |pointsLists|
  {
    if pointsLists != [] {
      var x := |pointsLists| - 1;
      var init := pointsLists[..x];
      if |pointsLists[x]| == k {
        LastFrameComplete(pointsLists, k, intensity);
      } else {
        assert Encode(pointsLists, k, intensity) == Encode(init, k, intensity) by {
          FillerFrameEmpty(x, k, intensity);
        }
        assert NoFiller(init);
        NumFramesOfEncoding(init, k, intensity);
      }
    }
  }

  // ---------------------------------------------------------------------------
  // getRobustPointList
  // ---------------------------------------------------------------------------

  /** The filter applied to each band (TopManyPointsProcessorChain keeping one point). */
  type BandFilter = seq<seq<real>> -> seq<seq<real>>

  /** j / bw lies below n for a bin j inside the first n bands. */
  lemma DivBelow(j: int, n: int, bw: int)
    requires bw > 0 && 0 <= j < n * bw
    ensures j / bw < n
  {
    if j / bw >= n {
      MulBounds(n, j / bw, bw);
    }
  }

  /** Every frame is long enough for band b to be read. */
  ghost predicate BandReadable(s: seq<seq<real>>, b: nat, bw: nat)
  {
    forall i :: 0 <= i < |s| ==> b * bw + bw <= |s[i]|
  }

  /** Band b as handed to the filter: bins [b * bw, b * bw + bw) of every frame. */
  ghost function BankOf(s: seq<seq<real>>, b: nat, bw: nat): (bank: seq<seq<real>>)
    requires BandReadable(s, b, bw)
    ensures |bank| == |s| && forall i :: 0 <= i < |s| ==> |bank[i]| == bw
  {
    seq(|s|, i requires 0 <= i < |s| => s[i][b * bw .. b * bw + bw])
  }

  /** The filter output covers every bin read back from it (none is read when bw is 0). */
  ghost predicate FilterFits(out: seq<seq<real>>, numX: nat, bw: nat)
  {
    bw == 0 || (numX <= |out| && forall i :: 0 <= i < numX ==> bw <= |out[i]|)
  }

  /** Band b can be read and its filtered intensities written back. */
  ghost predicate BandOk(s: seq<seq<real>>, filter: BandFilter, b: nat, bw: nat)
  {
    BandReadable(s, b, bw) && FilterFits(filter(BankOf(s, b, bw)), |s|, bw)
  }

  /** The first n bands are all fine. */
  ghost predicate BandsOk(s: seq<seq<real>>, filter: BandFilter, n: nat, bw: nat)
  {
    forall b :: 0 <= b < n ==> BandOk(s, filter, b, bw)
  }

  /** Where getRobustPointList throws: no frames, no banks, or a band or filter output too short. */
  ghost predicate RobustPointsFail(s: seq<seq<real>>, filter: BandFilter, numFilterBanks: nat)
  {
    |s| == 0 || numFilterBanks == 0 || !BandsOk(s, filter, numFilterBanks, |s[0]| / numFilterBanks)
  }

  /** The merged intensity of bin j of frame i, which lies in one of the first n bands. */
  ghost function MergedAt(s: seq<seq<real>>, filter: BandFilter, n: nat, bw: nat, i: int, j: int): real
    requires bw > 0 && BandsOk(s, filter, n, bw) && 0 <= i < |s| && 0 <= j < n * bw
  {
    DivBelow(j, n, bw);
    assert BandOk(s, filter, j / bw, bw);
    filter(BankOf(s, j / bw, bw))[i][j % bw]
  }

  /** A bin inside band b takes the filtered value at its offset in the band. */
  lemma MergedInBand(s: seq<seq<real>>, filter: BandFilter, n: nat, bw: nat, b: nat, i: int, j: int)
    requires bw > 0 && BandsOk(s, filter, n, bw) && 0 <= i < |s| && b < n && b * bw <= j < b * bw + bw
    requires BandOk(s, filter, b, bw)
    ensures j < n * bw
    ensures MergedAt(s, filter, n, bw, i, j) == filter(BankOf(s, b, bw))[i][j - b * bw]
  {
    MulBounds(b + 1, n, bw);
    MulSucc(bw, b);
    assert bw * (b + 1) == (b + 1) * bw && bw * b == b * bw;
    ModUnique(j, bw, b, j - b * bw);
  }

  /** Frame i of allBanksIntensities after all bands: merged values, 0 past the last band. */
  ghost function MergedRow(s: seq<seq<real>>, filter: BandFilter, n: nat, bw: nat, i: int, numY: nat): (row: seq<real>)
    requires BandsOk(s, filter, n, bw) && 0 <= i < |s|
    ensures |row| == numY
  {
    seq(numY, j requires 0 <= j < numY => if bw > 0 && j < n * bw then MergedAt(s, filter, n, bw, i, j) else 0.0)
  }

  /** The bins of a row with a positive intensity, in ascending order. */
  function PositiveBins(row: seq<real>): (bins: seq<int>)
    ensures forall t :: 0 <= t < |bins| ==> 0 <= bins[t] < |row|
    decreases |row|
  {
    if row == [] then []
    else PositiveBins(row[..|row| - 1]) + (if row[|row| - 1] > 0.0 then [|row| - 1] else [])
  }

  /** A bin is listed exactly when its intensity is positive. */
  lemma {:induction false} PositiveBinsExact(row: seq<real>)
    ensures forall j :: j in PositiveBins(row) <==> 0 <= j < |row| && row[j] > 0.0
    decreases |row|
  {
    if row != [] {
      var init := row[..|row| - 1];
      PositiveBinsExact(init);
      assert forall j :: 0 <= j < |init| ==> init[j] == row[j];
    }
  }

  /** Bins are listed in strictly ascending order. */
  lemma {:induction false} PositiveBinsAscending(row: seq<real>)
    ensures forall t, u :: 0 <= t < u < |PositiveBins(row)| ==> PositiveBins(row)[t] < PositiveBins(row)[u]
    decreases |row|
  {
    if row != [] {
      PositiveBinsAscending(row[..|row| - 1]);
    }
  }

  /** The robust bins of frame i: the positive bins of its merged row. */
  ghost function RobustBins(s: seq<seq<real>>, filter: BandFilter, numFilterBanks: nat, i: int): seq<int>
    requires !RobustPointsFail(s, filter, numFilterBanks) && 0 <= i < |s|
  {
    PositiveBins(MergedRow(s, filter, numFilterBanks, |s[0]| / numFilterBanks, i, |s[0]|))
  }

  /** The (frame, bin) points of one frame. */
  function RowPoints(i: int, bins: seq<int>): (points: seq<(int, int)>)
    ensures |points| == |bins|
  {
    seq(|bins|, t requires 0 <= t < |bins| => (i, bins[t]))
  }

  /** robustPointList: the positive points of every row, row after row. */
  ghost function AllPoints(rows: seq<seq<real>>): (points: seq<(int, int)>)
    ensures forall t :: 0 <= t < |points| ==> 0 <= points[t].0 < |rows|
    decreases |rows|
  {
    if rows == [] then []
    else AllPoints(rows[..|rows| - 1]) + RowPoints(|rows| - 1, PositiveBins(rows[|rows| - 1]))
  }

  /** The bins of the points that lie in frame x, in list order. */
  function Project(points: seq<(int, int)>, x: int): seq<int>
    decreases |points|
  {
    if points == [] then []
    else
      var last := points[|points| - 1];
      Project(points[..|points| - 1], x) + (if last.0 == x then [last.1] else [])
  }

  lemma {:induction false} ProjectAppend(a: seq<(int, int)>, b: seq<(int, int)>, x: int)
    ensures Project(a + b, x) == Project(a, x) + Project(b, x)
    decreases |b|
  {
    if b == [] {
      assert a + b == a;
    } else {
      assert (a + b)[..|a + b| - 1] == a + b[..|b| - 1];
      ProjectAppend(a, b[..|b| - 1], x);
    }
  }

  lemma {:induction false} ProjectRow(i: int, bins: seq<int>, x: int)
    ensures Project(RowPoints(i, bins), x) == if i == x then bins else []
    decreases |bins|
  {
    if bins != [] {
      var init := bins[..|bins| - 1];
      assert RowPoints(i, bins)[..|bins| - 1] == RowPoints(i, init);
      ProjectRow(i, init, x);
    }
  }

  /** Grouping robustPointList by frame gives each row's positive bins. */
  lemma {:induction false} ProjectAll(rows: seq<seq<real>>, x: int)
    requires 0 <= x < |rows|
    ensures Project(AllPoints(rows), x) == PositiveBins(rows[x])
    decreases |rows|
  {
    var n := |rows| - 1;
    assert AllPoints(rows) == AllPoints(rows[..n]) + RowPoints(n, PositiveBins(rows[n]));
    ProjectAppend(AllPoints(rows[..n]), RowPoints(n, PositiveBins(rows[n])), x);
    ProjectRow(n, PositiveBins(rows[n]), x);
    if x < n {
      ProjectAll(rows[..n], x);
      assert rows[..n][x] == rows[x];
    } else {
      ProjectNone(rows[..n], x);
    }
  }

  /** No point of the first rows lies in a later frame. */
  lemma ProjectNone(points_rows: seq<seq<real>>, x: int)
    requires x >= |points_rows|
    ensures Project(AllPoints(points_rows), x) == []
  {
    ProjectAbsent(AllPoints(points_rows), x);
  }

  lemma {:induction false} ProjectAbsent(points: seq<(int, int)>, x: int)
    requires forall t :: 0 <= t < |points| ==> points[t].0 != x
    ensures Project(points, x) == []
    decreases |points|
  {
    if points != [] {
      ProjectAbsent(points[..|points| - 1], x);
    }
  }

  /** bankIntensities of band b: fails when a frame is too short for the band. */
  method ReadBand(spectrogramData: seq<seq<real>>, b: nat, bandwidthPerBank: nat) returns (r: Result<seq<seq<real>>>)
    ensures r.Failure? <==> !BandReadable(spectrogramData, b, bandwidthPerBank)
    ensures r.Failure? ==> r.error == IndexOutOfBounds
    ensures r.Success? ==> r.value == BankOf(spectrogramData, b, bandwidthPerBank)
  {
    var numX := |spectrogramData|;
    var bw := bandwidthPerBank;
    var bankIntensities := new real[numX, bw];
    for i := 0 to numX
      invariant forall i' :: 0 <= i' < i ==> b * bw + bw <= |spectrogramData[i']|
      invariant forall i', j :: 0 <= i' < i && 0 <= j < bw ==> bankIntensities[i', j] == spectrogramData[i'][j + b * bw]
    {
      for j := 0 to bw
        invariant forall i' :: 0 <= i' < i ==> b * bw + bw <= |spectrogramData[i']|
        invariant forall i', j' :: 0 <= i' < i && 0 <= j' < bw ==> bankIntensities[i', j'] == spectrogramData[i'][j' + b * bw]
        invariant j > 0 ==> j - 1 + b * bw < |spectrogramData[i]|
        invariant forall j' :: 0 <= j' < j ==> j' + b * bw < |spectrogramData[i]| && bankIntensities[i, j'] == spectrogramData[i][j' + b * bw]
      {
        if j + b * bw >= |spectrogramData[i]| {
          return Failure(IndexOutOfBounds);
        }
        bankIntensities[i, j] := spectrogramData[i][j + b * bw];
      }
      if bw > 0 {
        assert bw - 1 + b * bw < |spectrogramData[i]|;
      }
    }
    var bank := seq(numX, i requires 0 <= i < numX reads bankIntensities =>
                      seq(bw, j requires 0 <= j < bw reads bankIntensities => bankIntensities[i, j]));
    forall i | 0 <= i < numX
      ensures bank[i] == spectrogramData[i][b * bw .. b * bw + bw]
    {
    }
    return Success(bank);
  }

  /**
   * Writes the filtered band back at bins [b * bw, b * bw + bw) of allBanksIntensities;
   * false when the filter output is too small to read back.
   */
  method WriteBand(allBanksIntensities: array2<real>, processed: seq<seq<real>>, b: nat, bandwidthPerBank: nat)
    returns (ok: bool)
    requires b * bandwidthPerBank + bandwidthPerBank <= allBanksIntensities.Length1
    modifies allBanksIntensities
    ensures ok <==> FilterFits(processed, allBanksIntensities.Length0, bandwidthPerBank)
    ensures ok ==> forall i, j :: 0 <= i < allBanksIntensities.Length0 && 0 <= j < allBanksIntensities.Length1 ==>
                     allBanksIntensities[i, j]
                     == if b * bandwidthPerBank <= j < b * bandwidthPerBank + bandwidthPerBank
                        then processed[i][j - b * bandwidthPerBank] else old(allBanksIntensities[i, j])
  {
    var numX := allBanksIntensities.Length0;
    var bw := bandwidthPerBank;
    for i := 0 to numX
      invariant bw > 0 ==> i <= |processed| && forall i' :: 0 <= i' < i ==> bw <= |processed[i']|
      invariant forall i', j :: 0 <= i' < numX && 0 <= j < allBanksIntensities.Length1 ==>
                  allBanksIntensities[i', j]
                  == if i' < i && b * bw <= j < b * bw + bw then processed[i'][j - b * bw] else old(allBanksIntensities[i', j])
    {
      for j := 0 to bw
        invariant bw > 0 ==> i <= |processed| && forall i' :: 0 <= i' < i ==> bw <= |processed[i']|
        invariant j > 0 ==> i < |processed| && j <= |processed[i]|
        invariant forall i', j' :: 0 <= i' < numX && 0 <= j' < allBanksIntensities.Length1 ==>
                    allBanksIntensities[i', j']
                    == if (i' < i || (i' == i && j' < b * bw + j)) && b * bw <= j' < b * bw + bw
                       then processed[i'][j' - b * bw] else old(allBanksIntensities[i', j'])
      {
        if i >= |processed| || j >= |processed[i]| {
          return false;
        }
        allBanksIntensities[i, j + b * bw] := processed[i][j];
      }
    }
    return true;
  }

  /** robustPointList: every (frame, bin) with a positive intensity, frame by frame, bins ascending. */
  method CollectPoints(allBanksIntensities: array2<real>, ghost rows: seq<seq<real>>) returns (robustPointList: seq<(int, int)>)
    requires |rows| == allBanksIntensities.Length0
    requires forall i :: 0 <= i < |rows| ==> |rows[i]| == allBanksIntensities.Length1
    requires forall i, j :: 0 <= i < |rows| && 0 <= j < allBanksIntensities.Length1 ==> allBanksIntensities[i, j] == rows[i][j]
    ensures robustPointList == AllPoints(rows)
  {
    robustPointList := [];
    for i := 0 to allBanksIntensities.Length0
      invariant robustPointList == AllPoints(rows[..i])
    {
      ghost var row := rows[i];
      ghost var done := robustPointList;
      for j := 0 to allBanksIntensities.Length1
        invariant robustPointList == done + RowPoints(i, PositiveBins(row[..j]))
      {
        assert row[..j + 1][..j] == row[..j];
        assert RowPoints(i, PositiveBins(row[..j + 1]))
               == RowPoints(i, PositiveBins(row[..j])) + (if row[j] > 0.0 then [(i, j)] else []);
        if allBanksIntensities[i, j] > 0.0 {
          robustPointList := robustPointList + [(i, j)];
        }
      }
      assert row[..|row|] == row;
      assert rows[..i + 1][..i] == rows[..i];
    }
    assert rows[..|rows|] == rows;
  }

  /** robustLists: the bins of the points of each frame, in list order. */
  method GroupByFrame(robustPointList: seq<(int, int)>, numX: nat) returns (lists: seq<seq<int>>)
    requires forall t :: 0 <= t < |robustPointList| ==> 0 <= robustPointList[t].0 < numX
    ensures |lists| == numX && forall x :: 0 <= x < numX ==> lists[x] == Project(robustPointList, x)
  {
    var robustLists := new seq<int>[numX](_ => []);
    for t := 0 to |robustPointList|
      invariant forall x :: 0 <= x < numX ==> robustLists[x] == Project(robustPointList[..t], x)
    {
      assert robustPointList[..t + 1][..t] == robustPointList[..t];
      var coor := robustPointList[t];
      robustLists[coor.0] := robustLists[coor.0] + [coor.1];
    }
    assert robustPointList[..|robustPointList|] == robustPointList;
    return robustLists[..];
  }

  /**
   * The band loop of getRobustPointList: each band is read, filtered and written back
   * into allBanksIntensities (all 0 on entry); false where reading or writing back throws.
   */
  method MergeBands(spectrogramData: seq<seq<real>>, filter: BandFilter, numFilterBanks: nat, bw: nat,
                    allBanksIntensities: array2<real>)
    returns (ok: bool)
    requires allBanksIntensities.Length0 == |spectrogramData| && numFilterBanks * bw <= allBanksIntensities.Length1
    requires forall i, j :: 0 <= i < allBanksIntensities.Length0 && 0 <= j < allBanksIntensities.Length1 ==>
               allBanksIntensities[i, j] == 0.0
    modifies allBanksIntensities
    ensures ok <==> BandsOk(spectrogramData, filter, numFilterBanks, bw)
    ensures ok ==> forall i, j :: 0 <= i < allBanksIntensities.Length0 && 0 <= j < allBanksIntensities.Length1 ==>
                     allBanksIntensities[i, j]
                     == if bw > 0 && j < numFilterBanks * bw then MergedAt(spectrogramData, filter, numFilterBanks, bw, i, j) else 0.0
  {
    var numX := allBanksIntensities.Length0;
    var numY := allBanksIntensities.Length1;
    for b := 0 to numFilterBanks
      invariant BandsOk(spectrogramData, filter, b, bw)
      invariant forall i, j :: 0 <= i < numX && 0 <= j < numY ==>
                  allBanksIntensities[i, j] == if bw > 0 && j < b * bw then MergedAt(spectrogramData, filter, b, bw, i, j) else 0.0
    {
      var bank := ReadBand(spectrogramData, b, bw);
      if bank.Failure? {
        assert !BandOk(spectrogramData, filter, b, bw);
        return false;
      }
      var processed := filter(bank.value);
      if bw > 0 {
        MulBounds(b + 1, numFilterBanks, bw);
      }
      MulSucc(bw, b);
      label beforeWrite:
      var written := WriteBand(allBanksIntensities, processed, b, bw);
      if !written {
        assert !BandOk(spectrogramData, filter, b, bw);
        return false;
      }
      assert BandsOk(spectrogramData, filter, b + 1, bw);
      forall i, j | 0 <= i < numX && 0 <= j < numY
        ensures allBanksIntensities[i, j]
                == if bw > 0 && j < (b + 1) * bw then MergedAt(spectrogramData, filter, b + 1, bw, i, j) else 0.0
      {
        if bw > 0 && b * bw <= j < b * bw + bw {
          MergedInBand(spectrogramData, filter, b + 1, bw, b, i, j);
        } else {
          assert allBanksIntensities[i, j] == old@beforeWrite(allBanksIntensities[i, j]);
        }
      }
    }
    return true;
  }

  /**
   * getRobustPointList: split the bins into numFilterBanks bands of numY / numFilterBanks
   * bins, filter each band and write it back, then list per frame the bins whose
   * filtered intensity is positive. An empty spectrogram throws on spectrogramData[0],
   * no banks divides by zero, and a short frame or filter output throws on indexing.
   */
  method GetRobustPointList(spectrogramData: seq<seq<real>>, numFilterBanks: nat, filter: BandFilter)
    returns (r: Result<seq<seq<int>>>)
    ensures r.Failure? <==> RobustPointsFail(spectrogramData, filter, numFilterBanks)
    ensures r.Failure? ==> r.error == if |spectrogramData| > 0 && numFilterBanks == 0 then DivisionByZero else IndexOutOfBounds
    ensures r.Success? ==> |r.value| == |spectrogramData|
    ensures r.Success? ==> forall i :: 0 <= i < |r.value| ==> r.value[i] == RobustBins(spectrogramData, filter, numFilterBanks, i)
  {
    var numX := |spectrogramData|;
    if numX == 0 {
      return Failure(IndexOutOfBounds);
    }
    var numY := |spectrogramData[0]|;
    var allBanksIntensities := new real[numX, numY]((_, _) => 0.0);
    if numFilterBanks == 0 {
      return Failure(DivisionByZero);
    }
    var bw := numY / numFilterBanks;
    assert numFilterBanks * bw <= numY;
    var ok := MergeBands(spectrogramData, filter, numFilterBanks, bw, allBanksIntensities);
    if !ok {
      return Failure(IndexOutOfBounds);
    }
    ghost var rows := seq(numX, i requires 0 <= i < numX => MergedRow(spectrogramData, filter, numFilterBanks, bw, i, numY));
    var robustPointList := CollectPoints(allBanksIntensities, rows);
    var robustLists := GroupByFrame(robustPointList, numX);
    forall x | 0 <= x < numX
      ensures robustLists[x] == RobustBins(spectrogramData, filter, numFilterBanks, x)
    {
      ProjectAll(rows, x);
    }
    return Success(robustLists);
  }

  /**
   * The robust bins of a frame are strictly ascending bins of [0, numY), and a bin is
   * robust exactly when it lies inside one of the numFilterBanks bands and its filtered
   * intensity is positive: the remainder bins past the last band are never robust.
   */
  lemma RobustBinsCharacterised(s: seq<seq<real>>, filter: BandFilter, numFilterBanks: nat, i: int)
    requires !RobustPointsFail(s, filter, numFilterBanks) && 0 <= i < |s|
    ensures forall t, u :: 0 <= t < u < |RobustBins(s, filter, numFilterBanks, i)| ==>
              RobustBins(s, filter, numFilterBanks, i)[t] < RobustBins(s, filter, numFilterBanks, i)[u]
    ensures forall t :: 0 <= t < |RobustBins(s, filter, numFilterBanks, i)| ==>
              0 <= RobustBins(s, filter, numFilterBanks, i)[t] < |s[0]|
    ensures var bw := |s[0]| / numFilterBanks;
            forall j :: j in RobustBins(s, filter, numFilterBanks, i) <==>
              bw > 0 && 0 <= j < numFilterBanks * bw && MergedAt(s, filter, numFilterBanks, bw, i, j) > 0.0
  {
    var bw := |s[0]| / numFilterBanks;
    var row := MergedRow(s, filter, numFilterBanks, bw, i, |s[0]|);
    PositiveBinsAscending(row);
    PositiveBinsExact(row);
    assert numFilterBanks * bw <= |s[0]|;
  }
}
