/** The three point layouts and the two extraction loops behind them (include/DataLink/DataLink.hpp:94-296). */
module Payload {
  import opened LittleEndian
  import opened Numbers
  import opened Options
  import opened Sequences

  const INVALID_DISTANCE: U32 := 0xFFFF_FFFF
  const INVALID_PACKED_DISTANCE: U32 := 0xF_FFFF
  const PACKED_DISTANCES: int := 0x10_0000

  /** What an invalid distance becomes: the quiet NaN of an unsigned integer type, which is zero. */
  const NOT_A_NUMBER: U32 := 0

  datatype Point = Point(distance: U32, amplitude: U32)

  datatype Format = A | B | C {
    /** The bytes that n points take. */
    function Span(n: nat): nat {
      if B? then 6 * n else 4 * n
    }

    function PointSize(): nat {
      Span(1)
    }
  }

  function FormatOf(packetType: U16): Option<Format> {
    match packetType
    case 0x0041 => Some(A)
    case 0x0042 => Some(B)
    case 0x0043 => Some(C)
    case _ => None
  }

  function DistanceOnly(word: U32): Point {
    Point(if word != INVALID_DISTANCE then word else NOT_A_NUMBER, 0)
  }

  function DistanceAndAmplitude(word: U32, amplitude: U16): Point {
    Point(if word != INVALID_DISTANCE then word else NOT_A_NUMBER, amplitude)
  }

  /** The low 20 bits hold the distance and the high 12 bits the amplitude. */
  function Unpacked(word: U32): Point {
    var distance := word % PACKED_DISTANCES;
    Point(if distance != INVALID_PACKED_DISTANCE then distance else NOT_A_NUMBER, word / PACKED_DISTANCES)
  }

  function PointAt(f: Format, s: seq<Byte>, at: nat): Point
    requires at + f.PointSize() <= |s|
  {
    match f
    case A => DistanceOnly(U32At(s, at))
    case B => DistanceAndAmplitude(U32At(s, at), U16At(s, at + 4))
    case C => Unpacked(U32At(s, at))
  }

  /** The n points found at a position of a range. */
  function PointsAt(f: Format, s: seq<Byte>, at: nat, n: nat): (points: seq<Point>)
    requires at + f.Span(n) <= |s|
    ensures |points| == n
  {
    seq(n, i requires 0 <= i < n => PointAt(f, s, at + f.Span(i)))
  }

  /** A point decodes the same wherever its bytes stand. */
  lemma PointAtWindow(f: Format, s: seq<Byte>, at: nat, t: seq<Byte>, at': nat)
    requires at + f.PointSize() <= |s| && at' + f.PointSize() <= |t|
    requires s[at..at + f.PointSize()] == t[at'..at' + f.PointSize()]
    ensures PointAt(f, s, at) == PointAt(f, t, at')
  {
    var window := s[at..at + f.PointSize()];
    Shift(s, window, at);
    Shift(t, window, at');
  }

  function Distances(points: seq<Point>): (d: seq<U32>)
    ensures |d| == |points|
  {
    seq(|points|, i requires 0 <= i < |points| => points[i].distance)
  }

  function Amplitudes(points: seq<Point>): (a: seq<U32>)
    ensures |a| == |points|
  {
    seq(|points|, i requires 0 <= i < |points| => points[i].amplitude)
  }

  /** How many points both loops deliver: those asked for, or as many as the bytes hold. */
  function Delivered(f: Format, available: nat, asked: nat): nat {
    Min(asked, if f.B? then available / 6 else available / 4)
  }

  /**
   * The loop over points of type B tests for four remaining bytes and then reads six. It stays in its range
   * exactly when the points asked for are all there, or the bytes left after the whole points are fewer than four.
   */
  predicate StaysInRange(f: Format, available: nat, asked: nat) {
    f.B? ==> asked <= available / 6 || available % 6 < 4
  }

  /** That is the most: all that were asked for, or so many that one more would not fit. */
  lemma {:induction false} DeliversAllThatFit(f: Format, available: nat, asked: nat)
    ensures var n := Delivered(f, available, asked);
      && n <= asked && (if f.B? then 6 * n else 4 * n) <= available
      && (n == asked || (if f.B? then 6 * (n + 1) else 4 * (n + 1)) > available)
  {
  }

  /** The loop over points of type B, by its guard alone: some turn of it starts with fewer bytes than it reads. */
  predicate Overruns48(available: nat, asked: nat) {
    available >= 4 && asked > 0 && (available < 6 || Overruns48(available - 6, asked - 1))
  }

  lemma {:induction false} OverrunsExactlyOutOfRange(available: nat, asked: nat)
    ensures Overruns48(available, asked) <==> !StaysInRange(B, available, asked)
  {
    if available >= 6 && asked > 0 {
      OverrunsExactlyOutOfRange(available - 6, asked - 1);
    }
  }

  /** Any number of whole points and four more bytes, and one point more asked for: two bytes too many are read. */
  lemma {:induction false} FourBytesOverrun(points: nat)
    ensures Overruns48(6 * points + 4, points + 1)
  {
    OverrunsExactlyOutOfRange(6 * points + 4, points + 1);
  }

  /** retrieve32BitsUnsignedIntegersFromByteRange; the callback is the conversion of a word into a point. */
  method Retrieve32BitsUnsignedIntegers(
      range: seq<Byte>, begin: nat, numberOfIntegersToExtract: nat, f: Format)
    returns (position: nat, points: seq<Point>)
    requires begin <= |range| && !f.B?
    ensures var n := Delivered(f, |range| - begin, numberOfIntegersToExtract);
      position == begin + f.Span(n) <= |range| && points == PointsAt(f, range, begin, n)
  {
    position, points := begin, [];
    var remainingBytes, blockCount := |range| - begin, 0;
    while remainingBytes >= 4 && blockCount < numberOfIntegersToExtract
      invariant position == begin + f.Span(blockCount) <= |range| && remainingBytes == |range| - position
      invariant |points| == blockCount <= numberOfIntegersToExtract
      invariant forall i | 0 <= i < blockCount :: points[i] == PointAt(f, range, begin + f.Span(i))
    {
      var uint32Value := U32At(range, position);
      position := position + 4;
      points := points + [if f.A? then DistanceOnly(uint32Value) else Unpacked(uint32Value)];
      remainingBytes := |range| - position;
      blockCount := blockCount + 1;
    }
  }

  /** retrieve48bitsUnsignedIntegersFromByteRange, with its guard of four bytes. */
  method Retrieve48BitsUnsignedIntegers(range: seq<Byte>, begin: nat, numberOfIntegersToExtract: nat)
    returns (position: nat, points: seq<Point>)
    requires begin <= |range| && StaysInRange(B, |range| - begin, numberOfIntegersToExtract)
    ensures var n := Delivered(B, |range| - begin, numberOfIntegersToExtract);
      position == begin + B.Span(n) <= |range| && points == PointsAt(B, range, begin, n)
  {
    position, points := begin, [];
    var remainingBytes, blockCount := |range| - begin, 0;
    while remainingBytes >= 4 && blockCount < numberOfIntegersToExtract
      invariant position == begin + B.Span(blockCount) <= |range| && remainingBytes == |range| - position
      invariant |points| == blockCount <= numberOfIntegersToExtract
      invariant forall i | 0 <= i < blockCount :: points[i] == PointAt(B, range, begin + B.Span(i))
    {
      var uint32Value := U32At(range, position);
      position := position + 4;
      var uint16Value := U16At(range, position);
      position := position + 2;
      points := points + [DistanceAndAmplitude(uint32Value, uint16Value)];
      remainingBytes := |range| - position;
      blockCount := blockCount + 1;
    }
  }

  /** The three payload decoders, filling the two vectors. */
  method RetrievePayload(f: Format, range: seq<Byte>, begin: nat, numberOfPoints: nat)
    returns (position: nat, distances: seq<U32>, amplitudes: seq<U32>)
    requires begin <= |range| && StaysInRange(f, |range| - begin, numberOfPoints)
    ensures var n := Delivered(f, |range| - begin, numberOfPoints);
      && position == begin + f.Span(n) <= |range|
      && distances == Distances(PointsAt(f, range, begin, n))
      && amplitudes == Amplitudes(PointsAt(f, range, begin, n))
  {
    var points;
    match f {
      case A => position, points := Retrieve32BitsUnsignedIntegers(range, begin, numberOfPoints, A);
      case B => position, points := Retrieve48BitsUnsignedIntegers(range, begin, numberOfPoints);
      case C => position, points := Retrieve32BitsUnsignedIntegers(range, begin, numberOfPoints, C);
    }
    distances, amplitudes := Distances(points), Amplitudes(points);
  }

  // ----- The device's side -----

  /** The points a layout can carry. */
  predicate Encodable(f: Format, p: Point) {
    match f
    case A => p.distance != INVALID_DISTANCE && p.amplitude == 0
    case B => p.distance != INVALID_DISTANCE && p.amplitude < TWO16
    case C => p.distance < INVALID_PACKED_DISTANCE && p.amplitude < 0x1000
  }

  predicate AllEncodable(f: Format, points: seq<Point>) {
    forall i | 0 <= i < |points| :: Encodable(f, points[i])
  }

  function EncodePoint(f: Format, p: Point): (s: seq<Byte>)
    requires Encodable(f, p)
    ensures |s| == f.PointSize()
  {
    match f
    case A => Bytes32(p.distance)
    case B => Bytes32(p.distance) + Bytes16(p.amplitude)
    case C => Bytes32(p.distance + p.amplitude * 0x10_0000)
  }

  function EncodePoints(f: Format, points: seq<Point>): seq<Byte>
    requires AllEncodable(f, points)
  {
    Joined(seq(|points|, i requires 0 <= i < |points| => EncodePoint(f, points[i])))
  }

  lemma PointRoundTrip(f: Format, p: Point)
    requires Encodable(f, p)
    ensures PointAt(f, EncodePoint(f, p), 0) == p
  {
    match f {
      case A =>
      case B =>
        var s := EncodePoint(f, p);
        Shift(s, Bytes32(p.distance), 0);
        Shift(s, Bytes16(p.amplitude), 4);
      case C =>
        PackedFields(p.distance, p.amplitude);
    }
  }

  lemma PackedFields(distance: nat, amplitude: nat)
    requires distance < PACKED_DISTANCES
    ensures (distance + amplitude * PACKED_DISTANCES) % PACKED_DISTANCES == distance
    ensures (distance + amplitude * PACKED_DISTANCES) / PACKED_DISTANCES == amplitude
  {
  }

  /** The three sentinels of the device: the readings that are not distances. */
  predicate Invalid(f: Format, s: seq<Byte>, at: nat)
    requires at + f.PointSize() <= |s|
  {
    if f.C? then U32At(s, at) % PACKED_DISTANCES == INVALID_PACKED_DISTANCE else U32At(s, at) == INVALID_DISTANCE
  }

  /**
   * No bit is lost: a reading decodes to a point the layout carries and encodes back to the very same bytes
   * if and only if it is not the sentinel, which decodes to distance zero.
   */
  lemma LosslessUnlessInvalid(f: Format, s: seq<Byte>, at: nat)
    requires at + f.PointSize() <= |s|
    ensures Encodable(f, PointAt(f, s, at))
    ensures EncodePoint(f, PointAt(f, s, at)) == s[at..at + f.PointSize()] <==> !Invalid(f, s, at)
    ensures Invalid(f, s, at) ==> PointAt(f, s, at).distance == 0
  {
    Bytes32OfU32At(s, at);
    var word, p := U32At(s, at), PointAt(f, s, at);
    match f {
      case A =>
        Bytes32IsInjective(p.distance, word);
      case B =>
        Bytes16OfU16At(s, at + 4);
        Bytes32IsInjective(p.distance, word);
        assert s[at..at + 6][..4] == s[at..at + 4] && s[at..at + 6][4..] == s[at + 4..at + 6];
        assert EncodePoint(f, p)[..4] == Bytes32(p.distance);
      case C =>
        assert word == word % PACKED_DISTANCES + word / PACKED_DISTANCES * 0x10_0000;
        Bytes32IsInjective(p.distance + p.amplitude * 0x10_0000, word);
    }
  }

  lemma Bytes32IsInjective(m: U32, n: U32)
    ensures Bytes32(m) == Bytes32(n) <==> m == n
  {
    assert U32At(Bytes32(m), 0) == m && U32At(Bytes32(n), 0) == n;
  }

  /** Points decode the same wherever their bytes stand. */
  lemma PointsAtWindow(f: Format, s: seq<Byte>, at: nat, t: seq<Byte>, at': nat, n: nat)
    requires at + f.Span(n) <= |s| && at' + f.Span(n) <= |t|
    requires s[at..at + f.Span(n)] == t[at'..at' + f.Span(n)]
    ensures PointsAt(f, s, at, n) == PointsAt(f, t, at', n)
  {
    hide PointAt;
    forall i | 0 <= i < n
      ensures PointAt(f, s, at + f.Span(i)) == PointAt(f, t, at' + f.Span(i))
    {
      SubWindow(s, at, t, at', f.Span(n), f.Span(i), f.Span(i + 1));
      PointAtWindow(f, s, at + f.Span(i), t, at' + f.Span(i));
    }
  }

  /** Chunks of one point each stand side by side. */
  lemma {:induction false} ChunkOfJoined(f: Format, chunks: seq<seq<Byte>>, i: nat)
    requires forall j | 0 <= j < |chunks| :: |chunks[j]| == f.PointSize()
    ensures |Joined(chunks)| == f.Span(|chunks|)
    ensures i < |chunks| ==> Joined(chunks)[f.Span(i)..f.Span(i) + f.PointSize()] == chunks[i]
  {
    if chunks != [] {
      ChunkOfJoined(f, chunks[1..], if i == 0 then 0 else i - 1);
      if 0 < i < |chunks| {
        var all := Joined(chunks);
        assert all[f.PointSize()..|all|] == Joined(chunks[1..]);
        SliceOfSlice(all, f.PointSize(), |all|, f.Span(i - 1), f.Span(i));
      }
    }
  }

  /** Any list of points survives the wire, for each of the three layouts. */
  lemma PointsRoundTrip(f: Format, points: seq<Point>)
    requires AllEncodable(f, points)
    ensures |EncodePoints(f, points)| == f.Span(|points|)
    ensures PointsAt(f, EncodePoints(f, points), 0, |points|) == points
  {
    var chunks := seq(|points|, i requires 0 <= i < |points| => EncodePoint(f, points[i]));
    var payload := Joined(chunks);
    ChunkOfJoined(f, chunks, 0);
    forall i | 0 <= i < |points|
      ensures PointAt(f, payload, f.Span(i)) == points[i]
    {
      ChunkOfJoined(f, chunks, i);
      PointRoundTrip(f, points[i]);
      assert chunks[i] == chunks[i][0..f.PointSize()];
      PointAtWindow(f, payload, f.Span(i), chunks[i], 0);
    }
  }
}
