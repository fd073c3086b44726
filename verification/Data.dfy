/** The packet header, its wire layout and its decoder (include/DataLink/Data.hpp). */
module Data {
  import opened LittleEndian

  const MAGIC: U16 := 0xA25C

  /** Bytes taken by the header fields on the wire. */
  const HEADER_FIELDS_SIZE: nat := 76
  /** The size of the in-memory header, with its alignment padding: the length a range must have to be searched. */
  const HEADER_OBJECT_SIZE: nat := 80

  datatype Header = Header(
    magic: U16, packetType: U16, packetSize: U32, headerSize: U16, scanNumber: U16, packetNumber: U16,
    timestampRaw: U64, timestampSync: U64, statusFlags: U32, scanFrequency: U32,
    numPointsScan: U16, numPointsPacket: U16, firstIndex: U16,
    firstAngle: I32, angularIncrement: I32, iqInput: U32, iqOverload: U32,
    iqTimestampRaw: U64, iqTimestampSync: U64)

  /** One decoded packet: its header and the two vectors its payload was decoded into. */
  datatype Packet = Packet(header: Header, distances: seq<U32>, amplitudes: seq<U32>)

  /** A published scan. The time stamp taken when it is assembled is not modelled. */
  datatype Scan = Scan(distances: seq<U32>, amplitudes: seq<U32>, headers: seq<Header>) {
    predicate Empty() {
      headers == []
    }

    predicate IsComplete() {
      !Empty() && |distances| >= headers[0].numPointsScan
    }
  }

  /** The wire layout: every field at its offset. */
  function HeaderAt(s: seq<Byte>, at: nat): Header
    requires at + HEADER_FIELDS_SIZE <= |s|
  {
    Header(
      U16At(s, at), U16At(s, at + 2), U32At(s, at + 4), U16At(s, at + 8), U16At(s, at + 10), U16At(s, at + 12),
      U64At(s, at + 14), U64At(s, at + 22), U32At(s, at + 30), U32At(s, at + 34),
      U16At(s, at + 38), U16At(s, at + 40), U16At(s, at + 42),
      Signed(U32At(s, at + 44)), Signed(U32At(s, at + 48)), U32At(s, at + 52), U32At(s, at + 56),
      U64At(s, at + 60), U64At(s, at + 68))
  }

  /** Which bytes each field is read from, on a header whose bytes count up from zero. */
  lemma {:induction false} FieldsOnTheWire(s: seq<Byte>)
    requires |s| == 76 && forall i | 0 <= i < 76 :: s[i] == i
    ensures var h := HeaderAt(s, 0);
      && h.magic == 0x0100 && h.packetType == 0x0302 && h.packetSize == 0x0706_0504
      && h.headerSize == 0x0908 && h.scanNumber == 0x0B0A && h.packetNumber == 0x0D0C
      && h.timestampRaw == 0x1514_1312_1110_0F0E && h.timestampSync == 0x1D1C_1B1A_1918_1716 && h.statusFlags == 0x2120_1F1E
      && h.scanFrequency == 0x2524_2322 && h.numPointsScan == 0x2726 && h.numPointsPacket == 0x2928
      && h.firstIndex == 0x2B2A && h.firstAngle == 0x2F2E_2D2C && h.angularIncrement == 0x3332_3130
      && h.iqInput == 0x3736_3534 && h.iqOverload == 0x3B3A_3938 && h.iqTimestampRaw == 0x4342_4140_3F3E_3D3C
      && h.iqTimestampSync == 0x4B4A_4948_4746_4544
  {
  }

  method InterpretU16(range: seq<Byte>, position: nat) returns (value: U16, next: nat)
    requires position + 2 <= |range|
    ensures value == U16At(range, position) && next == position + 2
    ensures Bytes16(value) == range[position..next]
  {
    Bytes16OfU16At(range, position);
    value := range[position] + TWO8 * range[position + 1];
    next := position + 2;
  }

  method InterpretU32(range: seq<Byte>, position: nat) returns (value: U32, next: nat)
    requires position + 4 <= |range|
    ensures value == U32At(range, position) && next == position + 4
    ensures Bytes32(value) == range[position..next]
  {
    Bytes32OfU32At(range, position);
    value := range[position] + TWO8 * range[position + 1] + TWO16 * range[position + 2]
             + TWO24 * range[position + 3];
    next := position + 4;
  }

  /** The highest byte carries the sign: it is shifted into the top of a signed word. */
  method InterpretI32(range: seq<Byte>, position: nat) returns (value: I32, next: nat)
    requires position + 4 <= |range|
    ensures value == Signed(U32At(range, position)) && next == position + 4
  {
    var top: int := range[position + 3];
    if top >= 0x80 {
      top := top - TWO8;
    }
    value := range[position] + TWO8 * range[position + 1] + TWO16 * range[position + 2] + TWO24 * top;
    next := position + 4;
  }

  method InterpretU64(range: seq<Byte>, position: nat) returns (value: U64, next: nat)
    requires position + 8 <= |range|
    ensures value == U64At(range, position) && next == position + 8
  {
    value := range[position] + TWO8 * range[position + 1] + TWO16 * range[position + 2]
             + TWO24 * range[position + 3] + TWO32 * range[position + 4]
             + TWO32 * (TWO8 * range[position + 5]) + TWO32 * (TWO16 * range[position + 6])
             + TWO32 * (TWO24 * range[position + 7]);
    next := position + 8;
  }

  /** Reading the fields one after the other lands every one of them on its offset. */
  method FromByteRange(range: seq<Byte>, begin: nat) returns (header: Header)
    requires begin + HEADER_FIELDS_SIZE <= |range|
    ensures header == HeaderAt(range, begin)
  {
    var position := begin;
    var magic, packetType, packetSize, headerSize, scanNumber, packetNumber;
    magic, position := InterpretU16(range, position);
    packetType, position := InterpretU16(range, position);
    packetSize, position := InterpretU32(range, position);
    headerSize, position := InterpretU16(range, position);
    scanNumber, position := InterpretU16(range, position);
    packetNumber, position := InterpretU16(range, position);
    var timestampRaw, timestampSync, statusFlags, scanFrequency;
    timestampRaw, position := InterpretU64(range, position);
    timestampSync, position := InterpretU64(range, position);
    statusFlags, position := InterpretU32(range, position);
    scanFrequency, position := InterpretU32(range, position);
    var numPointsScan, numPointsPacket, firstIndex, firstAngle, angularIncrement;
    numPointsScan, position := InterpretU16(range, position);
    numPointsPacket, position := InterpretU16(range, position);
    firstIndex, position := InterpretU16(range, position);
    firstAngle, position := InterpretI32(range, position);
    angularIncrement, position := InterpretI32(range, position);
    var iqInput, iqOverload, iqTimestampRaw, iqTimestampSync;
    iqInput, position := InterpretU32(range, position);
    iqOverload, position := InterpretU32(range, position);
    iqTimestampRaw, position := InterpretU64(range, position);
    iqTimestampSync, position := InterpretU64(range, position);
    header := Header(
      magic, packetType, packetSize, headerSize, scanNumber, packetNumber, timestampRaw, timestampSync,
      statusFlags, scanFrequency, numPointsScan, numPointsPacket, firstIndex, firstAngle, angularIncrement,
      iqInput, iqOverload, iqTimestampRaw, iqTimestampSync);
  }

  /** The device's side: the fields in order, without padding, in four groups. */
  function EncodeHeader(h: Header): (s: seq<Byte>)
    ensures |s| == HEADER_FIELDS_SIZE
  {
    EncodeIdentity(h) + EncodeTimes(h) + EncodeGeometry(h) + EncodeSwitching(h)
  }

  function EncodeIdentity(h: Header): (s: seq<Byte>)
    ensures |s| == 14
  {
    Bytes16(h.magic) + Bytes16(h.packetType) + Bytes32(h.packetSize)
    + Bytes16(h.headerSize) + Bytes16(h.scanNumber) + Bytes16(h.packetNumber)
  }

  function EncodeTimes(h: Header): (s: seq<Byte>)
    ensures |s| == 24
  {
    Bytes64(h.timestampRaw) + Bytes64(h.timestampSync) + Bytes32(h.statusFlags) + Bytes32(h.scanFrequency)
  }

  function EncodeGeometry(h: Header): (s: seq<Byte>)
    ensures |s| == 14
  {
    Bytes16(h.numPointsScan) + Bytes16(h.numPointsPacket) + Bytes16(h.firstIndex)
    + Bytes32(Unsigned(h.firstAngle)) + Bytes32(Unsigned(h.angularIncrement))
  }

  function EncodeSwitching(h: Header): (s: seq<Byte>)
    ensures |s| == 24
  {
    Bytes32(h.iqInput) + Bytes32(h.iqOverload) + Bytes64(h.iqTimestampRaw) + Bytes64(h.iqTimestampSync)
  }

  /** Decoding what the device encoded gives every field back, signs included, whatever bytes follow. */
  lemma HeaderRoundTrip(h: Header, rest: seq<Byte>)
    ensures HeaderAt(EncodeHeader(h) + rest, 0) == h
  {
    IdentityFields(h);
    TimesFields(h);
    GeometryFields(h);
    SwitchingFields(h);
    var s := EncodeHeader(h) + rest;
    Shift(s, EncodeIdentity(h), 0);
    Shift(s, EncodeTimes(h), 14);
    Shift(s, EncodeGeometry(h), 38);
    Shift(s, EncodeSwitching(h), 52);
  }

  lemma IdentityFields(h: Header)
    ensures var s := EncodeIdentity(h);
      && U16At(s, 0) == h.magic && U16At(s, 2) == h.packetType && U32At(s, 4) == h.packetSize
      && U16At(s, 8) == h.headerSize && U16At(s, 10) == h.scanNumber && U16At(s, 12) == h.packetNumber
  {
    var s := EncodeIdentity(h);
    assert s[0..2] == Bytes16(h.magic) && s[2..4] == Bytes16(h.packetType) && s[4..8] == Bytes32(h.packetSize);
    assert s[8..10] == Bytes16(h.headerSize) && s[10..12] == Bytes16(h.scanNumber);
    assert s[12..14] == Bytes16(h.packetNumber);
  }

  lemma TimesFields(h: Header)
    ensures var s := EncodeTimes(h);
      && U64At(s, 0) == h.timestampRaw && U64At(s, 8) == h.timestampSync
      && U32At(s, 16) == h.statusFlags && U32At(s, 20) == h.scanFrequency
  {
    var s := EncodeTimes(h);
    Shift(s, Bytes64(h.timestampRaw), 0);
    Shift(s, Bytes64(h.timestampSync), 8);
    assert s[16..20] == Bytes32(h.statusFlags) && s[20..24] == Bytes32(h.scanFrequency);
  }

  lemma GeometryFields(h: Header)
    ensures var s := EncodeGeometry(h);
      && U16At(s, 0) == h.numPointsScan && U16At(s, 2) == h.numPointsPacket && U16At(s, 4) == h.firstIndex
      && Signed(U32At(s, 6)) == h.firstAngle && Signed(U32At(s, 10)) == h.angularIncrement
  {
    var s := EncodeGeometry(h);
    assert s[0..2] == Bytes16(h.numPointsScan) && s[2..4] == Bytes16(h.numPointsPacket);
    assert s[4..6] == Bytes16(h.firstIndex) && s[6..10] == Bytes32(Unsigned(h.firstAngle));
    assert s[10..14] == Bytes32(Unsigned(h.angularIncrement));
  }

  lemma SwitchingFields(h: Header)
    ensures var s := EncodeSwitching(h);
      && U32At(s, 0) == h.iqInput && U32At(s, 4) == h.iqOverload
      && U64At(s, 8) == h.iqTimestampRaw && U64At(s, 16) == h.iqTimestampSync
  {
    var s := EncodeSwitching(h);
    Shift(s, Bytes64(h.iqTimestampRaw), 8);
    Shift(s, Bytes64(h.iqTimestampSync), 16);
    assert s[0..4] == Bytes32(h.iqInput) && s[4..8] == Bytes32(h.iqOverload);
  }

  /** The decoded header depends only on the 76 bytes it is read from. */
  lemma HeaderAtWindow(s: seq<Byte>, at: nat, t: seq<Byte>, at': nat)
    requires at + HEADER_FIELDS_SIZE <= |s| && at' + HEADER_FIELDS_SIZE <= |t|
    requires s[at..at + HEADER_FIELDS_SIZE] == t[at'..at' + HEADER_FIELDS_SIZE]
    ensures HeaderAt(s, at) == HeaderAt(t, at')
  {
    var window := s[at..at + HEADER_FIELDS_SIZE];
    assert forall i: nat {:trigger s[i]} | at <= i < at + HEADER_FIELDS_SIZE :: s[i] == window[i - at];
    assert forall i: nat {:trigger t[i]} | at' <= i < at' + HEADER_FIELDS_SIZE :: t[i] == window[i - at'];
  }
}
