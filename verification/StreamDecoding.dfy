/** The extraction loop shared by the two links: packets are extracted until one cannot be. */
module StreamDecoding {
  import opened LittleEndian
  import opened Options
  import opened Sequences
  import opened Data
  import opened PacketExtraction
  import opened ScanAssembly

  datatype Decoding =
    | Stopped(history: History, position: nat, missing: U32)  // the loop left, and from where to keep the bytes
    | Threw(history: History)                                 // a payload of an unsupported type
    | Undefined                                               // reads past the range
    | Endless                                                 // a packet of no bytes, extracted for ever

  /** Everything the loop does from a position of the bytes on. */
  function Decode(t: Transport, s: seq<Byte>, position: nat, h: History): Decoding
    requires position <= |s|
    decreases |s| - position
  {
    match ExtractFrom(s, position)
    case NothingFound => Stopped(h, |s|, 0)
    case Incomplete(start, header, missing) => Stopped(Observe(h, header), start, missing)
    case Unsupported(header) => Threw(Observe(h, header))
    case OutOfRange => Undefined
    case Extracted(next, packet) =>
      ExtractionAdvances(s, position);
      if next == position then Endless else Decode(t, s, next, Feed(t, h, packet))
  }

  /** The demand of the loop on its bytes: it stays inside them and comes to an end. */
  predicate Runs(d: Decoding) {
    d.Stopped? || d.Threw?
  }

  /** One turn of the loop. */
  lemma {:induction false} DecodeStep(t: Transport, s: seq<Byte>, position: nat, h: History)
    requires position <= |s|
    ensures var d := Decode(t, s, position, h);
      match ExtractFrom(s, position)
      case NothingFound => d == Stopped(h, |s|, 0)
      case Incomplete(start, header, missing) => d == Stopped(Observe(h, header), start, missing) && start <= |s|
      case Unsupported(header) => d == Threw(Observe(h, header))
      case OutOfRange => d == Undefined
      case Extracted(next, packet) =>
        && position <= next <= |s| && |packet.distances| < TWO16
        && (if next == position then d.Endless? else d == Decode(t, s, next, Feed(t, h, packet)))
  {
    var e := ExtractFrom(s, position);
    if e.Extracted? {
      ExtractionAdvances(s, position);
    }
  }

  lemma {:induction false} DecodeOnePacket(t: Transport, s: seq<Byte>, position: nat, h: History, w: seq<Byte>)
    requires WellFormed(w) && position + |w| <= |s| && s[position..position + |w|] == w
    ensures Decode(t, s, position, h) == Decode(t, s, position + |w|, Feed(t, h, PacketOf(w)))
  {
    hide ExtractFrom, WellFormed, PacketOf, Feed;
    WellFormedIsExtracted(s, position, w);
  }

  ghost predicate AllWellFormed(ws: seq<seq<Byte>>) {
    forall i | 0 <= i < |ws| :: WellFormed(ws[i])
  }

  ghost function PacketsOf(ws: seq<seq<Byte>>): (ps: seq<Packet>)
    requires AllWellFormed(ws)
    ensures |ps| == |ws|
    ensures forall i | 0 <= i < |ws| :: ps[i] == PacketOf(ws[i]) && Regular(ps[i])
  {
    if ws == [] then [] else [PacketOf(ws[0])] + PacketsOf(ws[1..])
  }

  lemma {:induction false} PacketsOfAppend(a: seq<seq<Byte>>, b: seq<seq<Byte>>)
    requires AllWellFormed(a) && AllWellFormed(b)
    ensures AllWellFormed(a + b)
    ensures PacketsOf(a + b) == PacketsOf(a) + PacketsOf(b)
  {
    hide WellFormed, PacketOf, HeaderOf, Regular;
    assert forall i | 0 <= i < |a + b| :: (a + b)[i] == if i < |a| then a[i] else b[i - |a|];
  }

  /** The loop goes through well-formed packets one by one, each by exactly its size. */
  lemma {:induction false} DecodePackets(
      t: Transport, s: seq<Byte>, position: nat, h: History, ws: seq<seq<Byte>>)
    requires AllWellFormed(ws)
    requires position + |Joined(ws)| <= |s| && s[position..position + |Joined(ws)|] == Joined(ws)
    ensures Decode(t, s, position, h)
         == Decode(t, s, position + |Joined(ws)|, FeedAll(t, h, PacketsOf(ws)))
    decreases |ws|
  {
    hide Decode, Feed, WellFormed, PacketOf, HeaderOf, Regular;
    if ws != [] {
      var p, rest := PacketOf(ws[0]), ws[1..];
      FirstOfJoined(s, position, ws);
      DecodeOnePacket(t, s, position, h, ws[0]);
      DecodePackets(t, s, position + |ws[0]|, Feed(t, h, p), rest);
      FeedFirst(t, h, p, PacketsOf(rest));
    }
  }

  lemma {:induction false} FirstOfJoined<T>(s: seq<T>, position: nat, ws: seq<seq<T>>)
    requires ws != []
    requires position + |Joined(ws)| <= |s| && s[position..position + |Joined(ws)|] == Joined(ws)
    ensures |Joined(ws)| == |ws[0]| + |Joined(ws[1..])|
    ensures s[position..position + |ws[0]|] == ws[0]
    ensures s[position + |ws[0]|..position + |ws[0]| + |Joined(ws[1..])|] == Joined(ws[1..])
  {
    var w, rest, all := ws[0], Joined(ws[1..]), Joined(ws);
    assert all == w + rest;
    SliceOfSlice(s, position, position + |all|, 0, |w|);
    SliceOfSlice(s, position, position + |all|, |w|, |all|);
    assert all[0..|w|] == w && all[|w|..|all|] == rest;
  }

  lemma {:induction false} FeedFirst(t: Transport, h: History, p: Packet, ps: seq<Packet>)
    ensures FeedAll(t, h, [p] + ps) == FeedAll(t, Feed(t, h, p), ps)
  {
    FeedAllAppend(t, h, [p], ps);
    FeedAllOne(t, h, p);
  }

  lemma {:induction false} FeedAllOne(t: Transport, h: History, p: Packet)
    ensures FeedAll(t, h, [p]) == Feed(t, h, p)
  {
    assert [p][..0] == [];
  }

  /** The last bytes of a range: too few to be searched, they are dropped; enough of a packet, they are kept. */
  lemma {:induction false} DecodeTail(t: Transport, s: seq<Byte>, position: nat, h: History, w: seq<Byte>)
    requires WellFormed(w) && position <= |s| < position + |w| && s[position..] == w[..|s| - position]
    ensures Decode(t, s, position, h) ==
      if |s| - position < HEADER_OBJECT_SIZE then Stopped(h, |s|, 0)
      else Stopped(Observe(h, HeaderOf(w)), position, position + |w| - |s|)
  {
    if |s| - position >= HEADER_OBJECT_SIZE {
      PartIsIncomplete(s, position, w);
    }
  }

  /** Any bytes: whatever the loop does to the history, it only feeds packets and observes headers. */
  lemma {:induction false} DecodeKeepsProper(t: Transport, s: seq<Byte>, position: nat, h: History)
    requires position <= |s| && Proper(t, h)
    ensures var d := Decode(t, s, position, h);
      && (d.Stopped? ==> Proper(t, d.history) && position <= d.position <= |s|)
      && (d.Threw? ==> Proper(t, d.history))
    decreases |s| - position
  {
    match ExtractFrom(s, position)
    case Extracted(next, packet) =>
      ExtractionAdvances(s, position);
      FeedKeepsProper(t, h, packet);
      if next != position {
        DecodeKeepsProper(t, s, next, Feed(t, h, packet));
      }
    case Incomplete(start, header, missing) =>
      ObserveKeepsProper(t, h, header);
    case Unsupported(header) =>
      ObserveKeepsProper(t, h, header);
    case _ =>
  }

  /**
   * The loop does not end exactly when it reaches a packet that takes no byte: one whose header says that it has
   * no size, at the very position reached, and that delivers no point. Such a packet is fed for ever.
   */
  lemma {:induction false} EndsUnlessEmptyPacket(t: Transport, s: seq<Byte>, position: nat, h: History)
    requires position <= |s|
    ensures Decode(t, s, position, h).Endless? <==> ReachesEmptyPacket(s, position)
    decreases |s| - position
  {
    var e := ExtractFrom(s, position);
    if e.Extracted? {
      ExtractionAdvances(s, position);
      if e.next != position {
        EndsUnlessEmptyPacket(t, s, e.next, Feed(t, h, e.packet));
      }
    }
  }

  /** Such bytes exist: a header that announces no size and no point, and four more bytes. */
  lemma {:induction false} EmptyPacketIsEndless(t: Transport, h: History)
    ensures var header := Header(MAGIC, 0x41, 0, 0, 0, 0, 0, 0, 0, 0, 0, 0, 0, 0, 0, 0, 0, 0, 0);
      Decode(t, EncodeHeader(header) + [0, 0, 0, 0], 0, h) == Endless
  {
    var header := Header(MAGIC, 0x41, 0, 0, 0, 0, 0, 0, 0, 0, 0, 0, 0, 0, 0, 0, 0, 0, 0);
    hide HeaderAt, EncodeHeader;
    EncodedHeader(header, [0, 0, 0, 0]);
    MagicAtOnce(EncodeHeader(header) + [0, 0, 0, 0], 0);
  }

  predicate ReachesEmptyPacket(s: seq<Byte>, position: nat)
    requires position <= |s|
    decreases |s| - position
  {
    var e := ExtractFrom(s, position);
    e.Extracted? &&
    (ExtractionAdvances(s, position);
     if FirstMagic(s, position) == Some(position) && e.packet.header.headerSize == 0 && e.packet.distances == []
     then true
     else ReachesEmptyPacket(s, e.next))
  }

  // ----- Reads past the end -----

  /** At this position the header, or a point of type B, is read though not all of it is there. */
  predicate OverreadsAt(s: seq<Byte>, position: nat)
    requires position <= |s|
  {
    |s| - position >= HEADER_OBJECT_SIZE &&
    match FirstMagic(s, position)
    case None => false
    case Some(start) => start + HEADER_FIELDS_SIZE > |s| || PayloadOverreads(HeaderAt(s, start), |s| - start)
  }

  /**
   * By its sizes the packet is all there, but it announces more points of six bytes, and four or five bytes are over.
   */
  predicate PayloadOverreads(h: Header, length: nat) {
    var available := length - h.headerSize;
    && h.packetType == 0x42
    && (h.packetSize - h.headerSize) % TWO32 <= available
    && h.numPointsPacket > available / 6
    && available % 6 >= 4
  }

  /** Going from packet to packet, the loop comes to such a position. */
  predicate ReachesOverread(s: seq<Byte>, position: nat)
    requires position <= |s|
    decreases |s| - position
  {
    var e := ExtractFrom(s, position);
    OverreadsAt(s, position) ||
    (e.Extracted? &&
     (ExtractionAdvances(s, position);
      e.next != position && ReachesOverread(s, e.next)))
  }

  lemma {:induction false} OutOfRangeIffOverreads(s: seq<Byte>, position: nat)
    requires position <= |s|
    ensures ExtractFrom(s, position).OutOfRange? <==> OverreadsAt(s, position)
  {
    hide HeaderAt;
  }

  /** On any bytes at all, the loop reads past their end if and only if it comes to such a position. */
  lemma {:induction false} UndefinedIffReachesOverread(t: Transport, s: seq<Byte>, position: nat, h: History)
    requires position <= |s|
    ensures Decode(t, s, position, h).Undefined? <==> ReachesOverread(s, position)
    decreases |s| - position
  {
    hide ExtractFrom, OverreadsAt, Feed, Observe;
    OutOfRangeIffOverreads(s, position);
    var e := ExtractFrom(s, position);
    if e.Extracted? {
      ExtractionAdvances(s, position);
      if e.next != position {
        UndefinedIffReachesOverread(t, s, e.next, Feed(t, h, e.packet));
      }
    }
  }

  /** So the bytes that the loop can be given are those without either: a condition on the bytes alone. */
  lemma {:induction false} RunsIff(t: Transport, s: seq<Byte>, position: nat, h: History)
    requires position <= |s|
    ensures Runs(Decode(t, s, position, h)) <==> !ReachesOverread(s, position) && !ReachesEmptyPacket(s, position)
  {
    hide Decode, ReachesOverread, ReachesEmptyPacket;
    UndefinedIffReachesOverread(t, s, position, h);
    EndsUnlessEmptyPacket(t, s, position, h);
  }

  // ----- Bytes before the first packet -----

  /**
   * Bytes in which no packet starts, neither inside them nor where they meet what follows, change nothing as long as
   * what follows is long enough to be searched.
   */
  lemma {:induction false} PrefixIsSkipped(t: Transport, s: seq<Byte>, from: nat, h: History)
    requires from + HEADER_OBJECT_SIZE <= |s|
    requires forall i | 0 <= i < from :: !MagicAt(s, i)
    ensures Decode(t, s, 0, h) == Decode(t, s, from, h)
  {
    SameExtraction(s, from);
    hide Decode, ExtractFrom, Feed, Observe, MagicAt;
    DecodeStep(t, s, 0, h);
    DecodeStep(t, s, from, h);
  }

  lemma {:induction false} SameExtraction(s: seq<Byte>, from: nat)
    requires from + HEADER_OBJECT_SIZE <= |s|
    requires forall i | 0 <= i < from :: !MagicAt(s, i)
    ensures ExtractFrom(s, 0) == ExtractFrom(s, from)
  {
    hide HeaderAt, ExtractPayload;
    FirstMagicSkips(s, 0, from);
  }

  lemma {:induction false} FirstMagicSkips(s: seq<Byte>, begin: nat, from: nat)
    requires begin <= from <= |s|
    requires forall i | begin <= i < from :: !MagicAt(s, i)
    ensures FirstMagic(s, begin) == FirstMagic(s, from)
    decreases from - begin
  {
    if begin < from {
      FirstMagicSkips(s, begin + 1, from);
    }
  }
}
