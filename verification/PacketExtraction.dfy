/** Finding and decoding one packet in a range of bytes (include/DataLink/DataLink.hpp:55-92 and 424-485). */
module PacketExtraction {
  import opened LittleEndian
  import opened Options
  import opened Sequences
  import opened Data
  import opened Payload

  const MAGIC_LOW: Byte := 0x5C
  const MAGIC_HIGH: Byte := 0xA2

  predicate MagicAt(s: seq<Byte>, at: nat) {
    at + 2 <= |s| && s[at] == MAGIC_LOW && s[at + 1] == MAGIC_HIGH
  }

  /** The search finds the first magic word, and finds none only when there is none. */
  function FirstMagic(s: seq<Byte>, begin: nat): (m: Option<nat>)
    requires begin <= |s|
    ensures m.Some? ==> begin <= m.value && MagicAt(s, m.value)
    ensures m.Some? ==> forall i | begin <= i < m.value :: !MagicAt(s, i)
    ensures m.None? ==> forall i | begin <= i :: !MagicAt(s, i)
    decreases |s| - begin
  {
    if begin + 1 >= |s| then None
    else if MagicAt(s, begin) then Some(begin)
    else FirstMagic(s, begin + 1)
  }

  method RetrievePacketMagic(range: seq<Byte>, begin: nat) returns (magic: Option<nat>)
    requires begin < |range|
    ensures magic == FirstMagic(range, begin)
  {
    var position := begin;
    var lastByteBeforeEnd := |range| - 1;
    while position != lastByteBeforeEnd
      invariant begin <= position <= lastByteBeforeEnd
      invariant FirstMagic(range, position) == FirstMagic(range, begin)
    {
      var uint16Value := U16At(range, position);
      if uint16Value == MAGIC {
        return Some(position);
      }
      position := position + 1;
    }
    magic := None;
  }

  datatype Extraction =
    | NothingFound                                            // the whole range is used up
    | Incomplete(start: nat, header: Header, missing: U32)    // a packet starts here and lacks bytes
    | Extracted(next: nat, packet: Packet)
    | Unsupported(header: Header)                             // throws: no such payload layout
    | OutOfRange                                              // reads past the range: undefined behaviour

  /** What extraction finds in the bytes from begin on; positions count from the start of s. */
  function ExtractFrom(s: seq<Byte>, begin: nat): Extraction
    requires begin <= |s|
  {
    if |s| - begin < HEADER_OBJECT_SIZE then NothingFound
    else
      match FirstMagic(s, begin)
      case None => NothingFound
      case Some(start) =>
        if start + HEADER_FIELDS_SIZE > |s| then OutOfRange
        else ExtractPayload(s, start, HeaderAt(s, start))
  }

  /** The sizes are unsigned 32-bit numbers: a packet smaller than its header asks for almost four gigabytes. */
  function ExtractPayload(s: seq<Byte>, start: nat, h: Header): Extraction {
    var payloadStart := start + h.headerSize;
    var payloadSize := (h.packetSize - h.headerSize) % TWO32;
    var available := |s| - payloadStart;
    if payloadSize > available then Incomplete(start, h, (payloadSize - available) % TWO32)
    else
      match FormatOf(h.packetType)
      case None => Unsupported(h)
      case Some(f) =>
        if StaysInRange(f, available, h.numPointsPacket) then
          var n := Delivered(f, available, h.numPointsPacket);
          DeliveredFits(f, available, h.numPointsPacket);
          Extracted(payloadStart + f.Span(n), PacketWith(h, PointsAt(f, s, payloadStart, n)))
        else OutOfRange
  }

  function PacketWith(h: Header, points: seq<Point>): (p: Packet)
    ensures p.header == h && |p.distances| == |p.amplitudes| == |points|
  {
    Packet(h, Distances(points), Amplitudes(points))
  }

  lemma DeliveredFits(f: Format, available: nat, asked: nat)
    ensures f.Span(Delivered(f, available, asked)) <= available
    ensures f.Span(asked) <= available ==> Delivered(f, available, asked) == asked
    ensures f.Span(asked) <= available ==> StaysInRange(f, available, asked)
  {
  }

  method RetrievePacketHeader(range: seq<Byte>, begin: nat) returns (found: Option<(nat, Header)>)
    requires begin <= |range| < TWO32
    requires !ExtractFrom(range, begin).OutOfRange? || OnlyThePayloadOverruns(range, begin)
    ensures found.None? <==>
      |range| - begin < HEADER_OBJECT_SIZE || FirstMagic(range, begin).None?
    ensures found.Some? ==>
      && FirstMagic(range, begin) == Some(found.value.0)
      && found.value.0 + HEADER_FIELDS_SIZE <= |range|
      && found.value.1 == HeaderAt(range, found.value.0)
  {
    var numberOfBytes := (|range| - begin) % TWO32;
    if numberOfBytes < HEADER_OBJECT_SIZE {
      return None;
    }
    var magic := RetrievePacketMagic(range, begin);
    if magic.None? {
      return None;
    }
    var header := FromByteRange(range, magic.value);
    found := Some((magic.value, header));
  }

  predicate OnlyThePayloadOverruns(s: seq<Byte>, begin: nat)
    requires begin <= |s|
  {
    var m := FirstMagic(s, begin);
    m.Some? ==> m.value + HEADER_FIELDS_SIZE <= |s|
  }

  /**
   * extractScanPacketFromByteRange without its effect on the factory, which ObserveHeader and AcceptPacket
   * of the two links apply.
   * The one demand on the caller is that the bytes never make it read outside their range.
   */
  method ExtractScanPacket(range: seq<Byte>, begin: nat) returns (e: Extraction)
    requires begin <= |range| < TWO32
    requires !ExtractFrom(range, begin).OutOfRange?
    ensures e == ExtractFrom(range, begin)
  {
    hide HeaderAt, PointAt, MagicAt, Delivered, StaysInRange;
    var found := RetrievePacketHeader(range, begin);
    if found.None? {
      return NothingFound;
    }
    var (start, header) := found.value;
    var headerSize := header.headerSize;
    var payloadStart := start + headerSize;
    var payloadSize := (header.packetSize - headerSize) % TWO32;
    var numberOfBytesAvailable := |range| - payloadStart;
    if payloadSize > numberOfBytesAvailable {
      return Incomplete(start, header, (payloadSize - numberOfBytesAvailable) % TWO32);
    }
    var format := FormatOf(header.packetType);
    if format.None? {
      return Unsupported(header);
    }
    var payloadEnd, distances, amplitudes :=
      RetrievePayload(format.value, range, payloadStart, header.numPointsPacket);
    e := Extracted(payloadEnd, Packet(header, distances, amplitudes));
  }

  /**
   * A successful extraction starts at the first magic word, keeps everything the header announces in range and
   * stops right after the last point delivered. It makes no progress in one case only: a magic word at once,
   * an announced header of no bytes and no point delivered.
   */
  lemma ExtractionAdvances(s: seq<Byte>, begin: nat)
    requires begin <= |s| && ExtractFrom(s, begin).Extracted?
    ensures var e := ExtractFrom(s, begin);
      var m := FirstMagic(s, begin);
      && m.Some? && begin <= m.value <= e.next <= |s|
      && e.packet.header == HeaderAt(s, m.value)
      && |e.packet.distances| == |e.packet.amplitudes| <= e.packet.header.numPointsPacket
      && (e.next == begin <==> m == Some(begin) && e.packet.header.headerSize == 0 && e.packet.distances == [])
  {
    var m := FirstMagic(s, begin).value;
    PayloadAdvances(s, m, HeaderAt(s, m));
  }

  lemma PayloadAdvances(s: seq<Byte>, start: nat, h: Header)
    requires ExtractPayload(s, start, h).Extracted?
    ensures var e := ExtractPayload(s, start, h);
      && start + h.headerSize <= e.next <= |s| && e.packet.header == h
      && |e.packet.distances| == |e.packet.amplitudes| <= h.numPointsPacket
      && (e.next == start + h.headerSize <==> e.packet.distances == [])
  {
    DeliveredFits(FormatOf(h.packetType).value, |s| - start - h.headerSize, h.numPointsPacket);
  }

  lemma MagicAtOnce(s: seq<Byte>, begin: nat)
    requires MagicAt(s, begin)
    ensures FirstMagic(s, begin) == Some(begin)
  {
  }

  // ----- Well-formed packets -----

  /** A packet as the device sends it: its sizes agree, and it holds at least the 80 bytes searched for. */
  ghost predicate WellFormed(w: seq<Byte>) {
    |w| >= HEADER_OBJECT_SIZE && MagicAt(w, 0) && Consistent(HeaderAt(w, 0), |w|)
  }

  predicate Consistent(h: Header, size: nat) {
    && h.headerSize >= HEADER_FIELDS_SIZE
    && h.packetSize == size
    && FormatOf(h.packetType).Some?
    && size == h.headerSize + FormatOf(h.packetType).value.Span(h.numPointsPacket)
  }

  function HeaderOf(w: seq<Byte>): Header
    requires |w| >= HEADER_FIELDS_SIZE
  {
    HeaderAt(w, 0)
  }

  /** The packet a well-formed range of bytes stands for. */
  ghost function PacketOf(w: seq<Byte>): (p: Packet)
    requires WellFormed(w)
    ensures p.header == HeaderOf(w)
    ensures |p.distances| == |p.amplitudes| == p.header.numPointsPacket
  {
    var h := HeaderOf(w);
    PacketWith(h, PayloadPoints(w, 0, h))
  }

  function PayloadPoints(s: seq<Byte>, begin: nat, h: Header): (points: seq<Point>)
    requires FormatOf(h.packetType).Some?
    requires begin + h.headerSize + FormatOf(h.packetType).value.Span(h.numPointsPacket) <= |s|
    ensures |points| == h.numPointsPacket
  {
    PointsAt(FormatOf(h.packetType).value, s, begin + h.headerSize, h.numPointsPacket)
  }

  /** A well-formed packet at the read position is extracted, up to exactly its last byte, whatever follows it. */
  lemma WellFormedIsExtracted(s: seq<Byte>, begin: nat, w: seq<Byte>)
    requires WellFormed(w) && begin + |w| <= |s| && s[begin..begin + |w|] == w
    ensures ExtractFrom(s, begin) == Extracted(begin + |w|, PacketOf(w))
  {
    assert w == w[0..|w|];
    StartsLike(s, begin, w, |w|);
    PayloadPresent(s, begin, HeaderOf(w), |w|);
    SamePayload(s, begin, w, HeaderOf(w));
  }

  /** The magic word and the header of a packet are read where the packet starts. */
  lemma StartsLike(s: seq<Byte>, begin: nat, w: seq<Byte>, length: nat)
    requires MagicAt(w, 0) && HEADER_FIELDS_SIZE <= length <= |w| && begin + length <= |s|
    requires s[begin..begin + length] == w[0..length]
    ensures FirstMagic(s, begin) == Some(begin)
    ensures HeaderAt(s, begin) == HeaderOf(w)
  {
    assert s[begin] == s[begin..begin + length][0] && s[begin + 1] == s[begin..begin + length][1];
    MagicAtOnce(s, begin);
    SubWindow(s, begin, w, 0, length, 0, HEADER_FIELDS_SIZE);
    HeaderAtWindow(s, begin, w, 0);
  }

  lemma PayloadPresent(s: seq<Byte>, begin: nat, h: Header, size: nat)
    requires Consistent(h, size) && begin + size <= |s|
    ensures ExtractPayload(s, begin, h) == Extracted(begin + size, PacketWith(h, PayloadPoints(s, begin, h)))
  {
    DeliveredFits(FormatOf(h.packetType).value, |s| - begin - h.headerSize, h.numPointsPacket);
    NoWrap(size - h.headerSize);
  }

  lemma SamePayload(s: seq<Byte>, begin: nat, w: seq<Byte>, h: Header)
    requires Consistent(h, |w|)
    requires begin + |w| <= |s| && s[begin..begin + |w|] == w[0..|w|]
    ensures PayloadPoints(s, begin, h) == PayloadPoints(w, 0, h)
  {
    SubWindow(s, begin, w, 0, |w|, h.headerSize, |w|);
    PointsAtWindow(
      FormatOf(h.packetType).value, s, begin + h.headerSize, w, h.headerSize, h.numPointsPacket);
  }

  /** A long enough part of one is recognised, with the exact number of bytes it lacks. */
  lemma PartIsIncomplete(s: seq<Byte>, begin: nat, w: seq<Byte>)
    requires WellFormed(w) && begin + HEADER_OBJECT_SIZE <= |s| < begin + |w|
    requires s[begin..] == w[..|s| - begin]
    ensures ExtractFrom(s, begin) == Incomplete(begin, HeaderOf(w), begin + |w| - |s|)
  {
    assert s[begin..begin + (|s| - begin)] == w[0..|s| - begin];
    StartsLike(s, begin, w, |s| - begin);
    PayloadOfPart(s, begin, HeaderOf(w), |w|);
  }

  lemma PayloadOfPart(s: seq<Byte>, begin: nat, h: Header, size: nat)
    requires Consistent(h, size) && begin <= |s| < begin + size
    ensures ExtractPayload(s, begin, h) == Incomplete(begin, h, begin + size - |s|)
  {
    NoWrap(size - h.headerSize);
    NoWrap(begin + size - |s|);
  }

  // ----- From bytes to points -----

  /** What makes a packet one: the bytes of the magic word, and one of three types. */
  lemma {:induction false} WellFormedBytes(w: seq<Byte>)
    requires WellFormed(w)
    ensures |w| >= 80 && w[0] == 0x5C && w[1] == 0xA2
    ensures HeaderOf(w).packetType in {0x41, 0x42, 0x43}
  {
    hide HeaderAt;
  }

  /** Type A: 32 bits of distance each; all ones stand for no distance. */
  lemma {:induction false} PointsOfTypeA(w: seq<Byte>, i: nat)
    requires WellFormed(w) && HeaderOf(w).packetType == 0x41 && i < HeaderOf(w).numPointsPacket
    ensures var at := HeaderOf(w).headerSize + 4 * i;
      && at + 4 <= |w|
      && PacketOf(w).distances[i] == (if U32At(w, at) == 0xFFFF_FFFF then 0 else U32At(w, at))
      && PacketOf(w).amplitudes[i] == 0
  {
    hide HeaderAt, U32At;
  }

  /** Type B: 32 bits of distance and 16 of amplitude. */
  lemma {:induction false} PointsOfTypeB(w: seq<Byte>, i: nat)
    requires WellFormed(w) && HeaderOf(w).packetType == 0x42 && i < HeaderOf(w).numPointsPacket
    ensures var at := HeaderOf(w).headerSize + 6 * i;
      && at + 6 <= |w|
      && PacketOf(w).distances[i] == (if U32At(w, at) == 0xFFFF_FFFF then 0 else U32At(w, at))
      && PacketOf(w).amplitudes[i] == U16At(w, at + 4)
  {
    hide HeaderAt, U32At, U16At;
  }

  /** Type C: the low 20 bits are the distance and the high 12 the amplitude. */
  lemma {:induction false} PointsOfTypeC(w: seq<Byte>, i: nat)
    requires WellFormed(w) && HeaderOf(w).packetType == 0x43 && i < HeaderOf(w).numPointsPacket
    ensures var at := HeaderOf(w).headerSize + 4 * i;
      && at + 4 <= |w|
      && PacketOf(w).distances[i] == (if U32At(w, at) % 0x10_0000 == 0xF_FFFF then 0 else U32At(w, at) % 0x10_0000)
      && PacketOf(w).amplitudes[i] == U32At(w, at) / 0x10_0000
  {
    hide HeaderAt, U32At;
  }

  /** Of packets that are all there by their sizes, those of other types are the ones refused. */
  lemma {:induction false} UnsupportedIffOtherType(s: seq<Byte>, start: nat, h: Header)
    requires h.headerSize <= h.packetSize && start + h.packetSize <= |s|
    ensures ExtractPayload(s, start, h).Unsupported? <==> h.packetType !in {0x41, 0x42, 0x43}
  {
    NoWrap(h.packetSize - h.headerSize);
  }

  /** A packet smaller than its own header is never all there: almost four gigabytes of it are said to be missing. */
  lemma {:induction false} UndersizedIsIncomplete(s: seq<Byte>, start: nat, h: Header)
    requires h.packetSize < h.headerSize && |s| < 0x8000_0000
    ensures var lacking := 0x1_0000_0000 + h.packetSize - h.headerSize - (|s| - start - h.headerSize);
      ExtractPayload(s, start, h) == Incomplete(start, h, lacking % 0x1_0000_0000)
  {
  }

  // ----- Round trip -----

  function EncodePacket(h: Header, padding: seq<Byte>, f: Format, points: seq<Point>): seq<Byte>
    requires AllEncodable(f, points)
  {
    EncodeHeader(h) + padding + EncodePoints(f, points)
  }

  /** Any header that announces its own packet, with any points of its layout, comes back from the wire. */
  lemma PacketRoundTrip(h: Header, padding: seq<Byte>, f: Format, points: seq<Point>)
    requires AllEncodable(f, points)
    requires h.magic == MAGIC && FormatOf(h.packetType) == Some(f)
    requires h.headerSize == HEADER_FIELDS_SIZE + |padding| && h.numPointsPacket == |points|
    requires h.packetSize == h.headerSize + f.Span(|points|) >= HEADER_OBJECT_SIZE
    ensures var w := EncodePacket(h, padding, f, points);
      WellFormed(w) && PacketOf(w) == PacketWith(h, points)
  {
    var w := EncodePacket(h, padding, f, points);
    EncodedHeader(h, padding + EncodePoints(f, points));
    assert w == EncodeHeader(h) + (padding + EncodePoints(f, points));
    PointsRoundTrip(f, points);
    EncodedPayload(h, EncodeHeader(h) + padding, EncodePoints(f, points));
  }

  lemma EncodedHeader(h: Header, rest: seq<Byte>)
    requires h.magic == MAGIC
    ensures var w := EncodeHeader(h) + rest;
      HeaderOf(w) == h && MagicAt(w, 0)
  {
    HeaderRoundTrip(h, rest);
    MagicOfHeader(EncodeHeader(h) + rest);
  }

  lemma EncodedPayload(h: Header, head: seq<Byte>, body: seq<Byte>)
    requires FormatOf(h.packetType).Some? && h.headerSize == |head|
    requires |body| == FormatOf(h.packetType).value.Span(h.numPointsPacket)
    ensures PayloadPoints(head + body, 0, h) == PointsAt(FormatOf(h.packetType).value, body, 0, h.numPointsPacket)
  {
    assert (head + body)[|head|..|head| + |body|] == body == body[0..|body|];
    PointsAtWindow(FormatOf(h.packetType).value, head + body, |head|, body, 0, h.numPointsPacket);
  }

  lemma MagicOfHeader(w: seq<Byte>)
    requires |w| >= HEADER_FIELDS_SIZE
    ensures HeaderOf(w).magic == MAGIC <==> MagicAt(w, 0)
  {
  }
}
