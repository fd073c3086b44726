/** The UDP link: one datagram at a time, behind a buffer that starts full of zeros (src/DataLink/UDPLink.cpp). */
module UdpLinks {
  import opened LittleEndian
  import opened Sequences
  import opened Data
  import opened PacketExtraction
  import opened ScanAssembly
  import opened ScanFactories
  import opened StreamDecoding
  import opened Streams
  import opened Reassembly

  const DATAGRAM_SIZE: nat := 65535

  /** The extraction buffer is created with one and a half datagrams of zeros in it. */
  const INITIAL_BUFFER_SIZE: nat := DATAGRAM_SIZE * 3 / 2

  datatype UdpState = UdpState(buffer: seq<Byte>, history: History, listening: bool)

  function Zeros(n: nat): seq<Byte> {
    seq(n, i => 0)
  }

  const INITIAL := UdpState(Zeros(INITIAL_BUFFER_SIZE), EMPTY, true)

  /** The step taken when a datagram has been received. */
  function Received(s: UdpState, datagram: seq<Byte>): UdpState {
    var all := s.buffer + datagram;
    match Decode(Udp, all, 0, s.history)
    case Stopped(h, position, missing) => UdpState(if position <= |all| then all[position..] else [], h, true)
    case Threw(h) => UdpState(all, h, false)
    case _ => UdpState(all, s.history, false)
  }

  class UdpLink {
    var extractionByteBuffer: seq<Byte>
    var listening: bool
    var isConnected: bool
    var connectionLostEvents: nat
    var published: seq<Scan>
    const factory: UdpScanFactory
    ghost var history: History

    ghost predicate Valid()
      reads this, factory
    {
      && factory.Valid() && factory.packets == history.open
      && Proper(Udp, history)
      && Publishes(Udp, history.closed, published)
    }

    ghost function View(): UdpState
      reads this
    {
      UdpState(extractionByteBuffer, history, listening)
    }

    /** The link listens if its socket could be set up, and is not connected otherwise. */
    constructor (socketReady: bool)
      ensures Valid() && fresh(factory)
      ensures View() == INITIAL.(listening := socketReady) && isConnected == socketReady
      ensures published == [] && connectionLostEvents == 0
    {
      extractionByteBuffer := Zeros(INITIAL_BUFFER_SIZE);
      listening, isConnected, connectionLostEvents := socketReady, socketReady, 0;
      published, history := [], EMPTY;
      factory := new UdpScanFactory();
    }

    /** The header of a packet, complete or not, may empty the factory. */
    method ObserveHeader(header: Header)
      requires Valid()
      modifies this`history, factory
      ensures Valid() && history == Observe(old(history), header)
      ensures !StartsOver(history.open, header)
    {
      hide Proper, Publishes, Points;
      ObserveKeepsProper(Udp, history, header);
      if !factory.Empty() && (factory.IsDifferentScan(header) || header.packetNumber == 1) {
        factory.Clear();
        PublishNone(Udp, history.closed, published, history.open);
        history := Observe(history, header);
      }
    }

    /** A packet is stored, and the scan it completes, if any, is sorted, flattened and published. */
    method AcceptPacket(packet: Packet)
      requires Valid() && !StartsOver(history.open, packet.header) && |packet.distances| < TWO16
      modifies this`history, this`published, factory
      ensures Valid() && history == Feed(Udp, old(history), packet)
      ensures old(published) <= published
    {
      FeedKeepsProper(Udp, history, packet);
      CountDoesNotWrap(history.open, packet);
      factory.AddPacket(packet.header, packet.distances, packet.amplitudes);
      ghost var open := factory.packets;
      if factory.IsComplete() {
        var scan := factory.TakeScan();
        PublishOne(Udp, history.closed, published, open, scan);
        published := published + [scan];
      }
      history := Feed(Udp, history, packet);
    }

    /** tryExtractingScanFromByteRange, over the whole extraction buffer. */
    method TryExtractingScan() returns (position: nat, threw: bool)
      requires Valid() && |extractionByteBuffer| < TWO32
      requires Runs(Decode(Udp, extractionByteBuffer, 0, history))
      modifies this`history, this`published, factory
      ensures Valid()
      ensures old(published) <= published
      ensures var d := Decode(Udp, extractionByteBuffer, 0, old(history));
        && history == d.history && (threw <==> d.Threw?)
        && (d.Stopped? ==> position == d.position <= |extractionByteBuffer|)
    {
      ghost var d := Decode(Udp, extractionByteBuffer, 0, history);
      position, threw := 0, false;
      while true
        invariant Valid() && position <= |extractionByteBuffer|
        invariant Decode(Udp, extractionByteBuffer, position, history) == d
        invariant old(published) <= published
        decreases |extractionByteBuffer| - position
      {
        hide Decode, ExtractFrom, Feed, Observe;
        DecodeStep(Udp, extractionByteBuffer, position, history);
        var e := ExtractScanPacket(extractionByteBuffer, position);
        match e
        case NothingFound =>
          position := |extractionByteBuffer|;
          return;
        case Incomplete(start, header, lacking) =>
          ObserveHeader(header);
          position := start;
          return;
        case Unsupported(header) =>
          ObserveHeader(header);
          threw := true;
          return;
        case Extracted(next, packet) =>
          EarlyClearCommutes(Udp, history, packet);
          ObserveHeader(packet.header);
          AcceptPacket(packet);
          position := next;
      }
    }

    /** The handler of a datagram. */
    method OnBytesReceived(error: bool, datagram: seq<Byte>)
      requires Valid()
      requires !error ==> |extractionByteBuffer + datagram| < TWO32
                          && Runs(Decode(Udp, extractionByteBuffer + datagram, 0, history))
      modifies this, factory
      ensures Valid() && old(published) <= published
      ensures error ==> View() == old(View()).(listening := false) && published == old(published)
      ensures error ==> !isConnected && connectionLostEvents == old(connectionLostEvents) + 1
      ensures !error ==> View() == Received(old(View()), datagram)
      ensures !error ==> isConnected == old(isConnected) && connectionLostEvents == old(connectionLostEvents)
    {
      hide Decode, Proper;
      listening := false;
      if error {
        isConnected := false;
        connectionLostEvents := connectionLostEvents + 1;
        return;
      }
      extractionByteBuffer := extractionByteBuffer + datagram;
      var until, threw := TryExtractingScan();
      if threw {
        return;
      }
      var remainingBytes := |extractionByteBuffer| - until;
      extractionByteBuffer := if remainingBytes != 0 then extractionByteBuffer[until..] else [];
      listening := true;
    }
  }

  /** The 32-bit count of points is exact: what the factory holds before a packet is not yet a scan. */
  lemma {:induction false} CountDoesNotWrap(open: seq<Packet>, p: Packet)
    requires !Complete(Udp, open) && |p.distances| < TWO16
    ensures Points(open + [p]) < TWO32
  {
    assert (open + [p])[..|open|] == open;
  }

  // ----- The zeros before the first datagram -----

  /** No packet starts in zeros, wherever they end. */
  lemma {:induction false} ZerosHoldNoMagic(zeros: nat, datagram: seq<Byte>, i: nat)
    requires i < zeros
    ensures !MagicAt(Zeros(zeros) + datagram, i)
  {
    assert (Zeros(zeros) + datagram)[i] == 0;
  }

  // ----- Runs -----

  /** The states between datagrams: nothing kept, but for the zeros before the first. */
  ghost predicate Ready(s: UdpState) {
    s.listening && exists n: nat :: s.buffer == Zeros(n)
  }

  /** A datagram of whole packets is used up, and its packets are fed to the factory in order. */
  lemma {:induction false} DatagramOfPackets(s: UdpState, ws: seq<seq<Byte>>)
    requires Ready(s) && AllWellFormed(ws) && ws != []
    ensures Received(s, Joined(ws)) == UdpState([], FeedAll(Udp, s.history, PacketsOf(ws)), true)
    ensures Decode(Udp, s.buffer + Joined(ws), 0, s.history).Stopped?
  {
    hide Decode, WellFormed, FeedAll, PacketsOf, MagicAt, Joined;
    var n: nat :| s.buffer == Zeros(n);
    var all, datagram := s.buffer + Joined(ws), Joined(ws);
    assert all[n..n + |datagram|] == datagram;
    AtLeastOnePacket(ws);
    DecodePackets(Udp, all, n, s.history, ws);
    var after := FeedAll(Udp, s.history, PacketsOf(ws));
    DecodeNothing(Udp, all, after);
    forall i | 0 <= i < n
      ensures !MagicAt(all, i)
    {
      ZerosHoldNoMagic(n, datagram, i);
    }
    PrefixIsSkipped(Udp, all, n, s.history);
  }

  lemma {:induction false} AtLeastOnePacket(ws: seq<seq<Byte>>)
    requires AllWellFormed(ws) && ws != []
    ensures |Joined(ws)| >= HEADER_OBJECT_SIZE
  {
    assert WellFormed(ws[0]);
  }

  lemma {:induction false} DecodeNothing(t: Transport, s: seq<Byte>, h: History)
    ensures Decode(t, s, |s|, h) == Stopped(h, |s|, 0)
  {
  }

  function RunFrom(s: UdpState, datagrams: seq<seq<Byte>>): UdpState
    decreases |datagrams|
  {
    if datagrams == [] then s else RunFrom(Received(s, datagrams[0]), datagrams[1..])
  }

  ghost predicate Datagrams(wss: seq<seq<seq<Byte>>>) {
    forall i | 0 <= i < |wss| :: AllWellFormed(wss[i]) && wss[i] != []
  }

  function JoinedEach(wss: seq<seq<seq<Byte>>>): (datagrams: seq<seq<Byte>>)
    ensures |datagrams| == |wss|
  {
    if wss == [] then [] else [Joined(wss[0])] + JoinedEach(wss[1..])
  }

  lemma {:induction false} FirstDatagram(wss: seq<seq<seq<Byte>>>)
    requires wss != [] && Datagrams(wss)
    ensures Datagrams(wss[1..]) && AllWellFormed(wss[0]) && wss[0] != []
  {
    hide AllWellFormed;
  }

  lemma {:induction false} PacketsOfDatagrams(wss: seq<seq<seq<Byte>>>)
    requires wss != [] && AllWellFormed(wss[0]) && AllWellFormed(Joined(wss[1..]))
    ensures AllWellFormed(Joined(wss))
    ensures PacketsOf(Joined(wss)) == PacketsOf(wss[0]) + PacketsOf(Joined(wss[1..]))
  {
    hide AllWellFormed, PacketsOf;
    PacketsOfAppend(wss[0], Joined(wss[1..]));
  }

  /** However packets are grouped into datagrams, the factory is fed all of them in order of arrival. */
  lemma {:induction false} RunFeedsEveryPacket(s: UdpState, wss: seq<seq<seq<Byte>>>)
    requires Ready(s) && Datagrams(wss)
    ensures AllWellFormed(Joined(wss)) && Ready(RunFrom(s, JoinedEach(wss)))
    ensures RunFrom(s, JoinedEach(wss)).history == FeedAll(Udp, s.history, PacketsOf(Joined(wss)))
    decreases |wss|
  {
    hide AllWellFormed, Received, PacketsOf, Feed, Datagrams;
    if wss != [] {
      FirstDatagram(wss);
      DatagramOfPackets(s, wss[0]);
      var s' := Received(s, Joined(wss[0]));
      assert s'.buffer == Zeros(0);
      RunFeedsEveryPacket(s', wss[1..]);
      PacketsOfDatagrams(wss);
      FeedAllAppend(Udp, s.history, PacketsOf(wss[0]), PacketsOf(Joined(wss[1..])));
      assert JoinedEach(wss)[1..] == JoinedEach(wss[1..]);
    } else {
      NoPackets();
    }
  }

  lemma {:induction false} NoPackets()
    ensures AllWellFormed([]) && PacketsOf([]) == []
  {
  }

  /**
   * From the bytes of datagrams to the published scans, whatever was published before: a whole scan whose packets
   * arrive in any order, but packet 1 first, is published once more, in packet order; with another packet first, and
   * nothing of that scan in the factory, nothing is published.
   */
  lemma {:induction false} ScanOverUdp(
      s: UdpState, wss: seq<seq<seq<Byte>>>, qs: seq<Packet>, before: seq<Scan>, scans: seq<Scan>)
    requires Ready(s) && Datagrams(wss) && WholeScan(qs)
    requires AllWellFormed(Joined(wss)) && multiset(PacketsOf(Joined(wss))) == multiset(qs)
    requires var ps := PacketsOf(Joined(wss));
      (ps != [] && ps[0].header.packetNumber == 1) || Unrelated(s.history, qs[0].header.scanNumber)
    requires Publishes(Udp, s.history.closed, before) && before <= scans
    requires Publishes(Udp, RunFrom(s, JoinedEach(wss)).history.closed, scans)
    ensures PacketsOf(Joined(wss)) != []
    ensures scans == before + if PacketsOf(Joined(wss))[0].header.packetNumber == 1 then [Assemble(qs)] else []
  {
    hide WellFormed, PacketsOf, FeedAll, WholeScan, Received, Publishes;
    RunFeedsEveryPacket(s, wss);
    ScanIsPublished(s.history, qs, PacketsOf(Joined(wss)), before, scans);
  }

  lemma {:induction false} ScanIsPublished(
      h: History, qs: seq<Packet>, ps: seq<Packet>, before: seq<Scan>, scans: seq<Scan>)
    requires WholeScan(qs) && multiset(ps) == multiset(qs)
    requires (ps != [] && ps[0].header.packetNumber == 1) || Unrelated(h, qs[0].header.scanNumber)
    requires Publishes(Udp, h.closed, before) && before <= scans
    requires Publishes(Udp, FeedAll(Udp, h, ps).closed, scans)
    ensures ps != []
    ensures scans == before + if ps[0].header.packetNumber == 1 then [Assemble(qs)] else []
  {
    hide FeedAll, WholeScan, Publishes, AssembledFrom, Assemble, Emissions, StartsOver;
    OrderOfArrival(h, qs, ps);
    var after := FeedAll(Udp, h, ps);
    PublishedCount(h.closed, before);
    PublishedCount(after.closed, scans);
    if ps[0].header.packetNumber == 1 {
      LastPublished(Cut(h).closed, ps, scans);
      EmissionsSince(h.closed, Cut(h).closed);
    } else {
      FeedAllExtends(Udp, h, ps);
      EmissionsSince(h.closed, after.closed);
    }
  }

  lemma {:induction false} LastPublished(closed: seq<Batch>, batch: seq<Packet>, scans: seq<Scan>)
    requires Publishes(Udp, closed + [Emitted(batch)], scans)
    ensures scans != [] && AssembledFrom(Udp, batch, scans[|scans| - 1])
    ensures Emissions(closed + [Emitted(batch)]) == Emissions(closed) + 1
  {
    assert (closed + [Emitted(batch)])[..|closed|] == closed;
  }

  lemma {:induction false} EmissionsSince(closed: seq<Batch>, closed': seq<Batch>)
    requires closed <= closed' && forall i | |closed| <= i < |closed'| :: closed'[i].Discarded?
    ensures Emissions(closed') == Emissions(closed)
  {
    if |closed'| > |closed| {
      EmissionsSince(closed, closed'[..|closed'| - 1]);
    } else {
      assert closed' == closed;
    }
  }

  // ----- Datagrams that end inside packets -----

  /** What is kept of the first n bytes of a stream, and what has been fed. */
  ghost function After(h: History, ws: seq<seq<Byte>>, n: nat): UdpState
    requires AllWellFormed(ws) && n <= |Joined(ws)|
  {
    UdpState(if ShortTail(ws, n) then [] else Unread(ws, n), HistoryFrom(Udp, h, ws, n), true)
  }

  /**
   * A datagram may end anywhere: of the packet it ends in, 80 bytes or more are kept for the next datagram, together
   * with the effect of the header on the factory, and fewer are dropped.
   */
  lemma {:induction false} DatagramEndsAnywhere(
      h: History, s: UdpState, ws: seq<seq<Byte>>, n: nat, datagram: seq<Byte>)
    requires AllWellFormed(ws) && Next(ws, n, datagram)
    requires s.buffer == Unread(ws, n) && s.history == HistoryFrom(Udp, h, ws, n)
    ensures Received(s, datagram) == After(h, ws, n + |datagram|)
    ensures Decode(Udp, s.buffer + datagram, 0, s.history).Stopped?
  {
    hide WellFormed, Decode, HistoryFrom, MissingAt, Joined, Whole, Boundary;
    var n', b := n + |datagram|, Boundary(ws, n);
    var rest, m := ws[Whole(ws, n)..], n' - b;
    var all := s.buffer + datagram;
    SameTail(ws, n, n');
    Consecutive(Joined(ws), b, n, n');
    assert all[0..] == all == Joined(ws)[b..n'];
    DecodeStream(Udp, all, 0, s.history, rest, m);
    HistoryContinues(Udp, h, ws, n, n');
    SliceOfSlice(Joined(ws), b, n', Boundary(rest, m), m);
  }

  /** So, as long as none is cut within 79 bytes of a packet's start, datagrams need not respect the packets at all. */
  lemma {:induction false} DatagramsCutAnywhere(
      h: History, s: UdpState, ws: seq<seq<Byte>>, n: nat, datagrams: seq<seq<Byte>>)
    requires AllWellFormed(ws) && n <= |Joined(ws)| && s == After(h, ws, n)
    requires Delivers(ws, n, datagrams) && NoShortTails(ws, n, datagrams)
    ensures RunFrom(s, datagrams) == After(h, ws, n + |Joined(datagrams)|)
    decreases |datagrams|
  {
    hide WellFormed, HistoryFrom, Unread, Delivers, ShortTail, Received, Joined;
    if datagrams != [] {
      FirstRead(ws, n, datagrams);
      KeptWithoutShortTail(h, ws, n);
      DatagramEndsAnywhere(h, s, ws, n, datagrams[0]);
      DatagramsCutAnywhere(h, Received(s, datagrams[0]), ws, n + |datagrams[0]|, datagrams[1..]);
    } else {
      NothingDelivered();
    }
  }

  lemma {:induction false} KeptWithoutShortTail(h: History, ws: seq<seq<Byte>>, n: nat)
    requires AllWellFormed(ws) && n <= |Joined(ws)| && !ShortTail(ws, n)
    ensures After(h, ws, n) == UdpState(Unread(ws, n), HistoryFrom(Udp, h, ws, n), true)
  {
  }

  lemma {:induction false} NothingDelivered()
    ensures |Joined<Byte>([])| == 0
  {
  }

  /**
   * The very first datagram comes behind 98302 zeros, which make the buffer long enough to be searched: ending 2 to 75
   * bytes into the first packet, it makes the link read past the end of the buffer.
   */
  lemma {:induction false} FirstDatagramBehindZeros(ws: seq<seq<Byte>>, n: nat)
    requires AllWellFormed(ws) && n <= |Joined(ws)|
    ensures |INITIAL.buffer| == 98302
    ensures Decode(Udp, INITIAL.buffer + Joined(ws)[..n], 0, EMPTY) == Undefined <==> 2 <= n < 76
    ensures n >= 80 ==> Received(INITIAL, Joined(ws)[..n]) == After(EMPTY, ws, n)
  {
    hide WellFormed, Decode, HistoryFrom, MissingAt, Joined, Whole, Boundary;
    var d, datagram := INITIAL_BUFFER_SIZE, Joined(ws)[..n];
    var all := INITIAL.buffer + datagram;
    assert INITIAL.buffer == Zeros(d) && |all| == d + n && all[d..] == datagram;
    forall i | 0 <= i < d
      ensures !MagicAt(all, i)
    {
      ZerosHoldNoMagic(d, datagram, i);
    }
    DecodeBehind(Udp, all, d, EMPTY, ws, n);
    if n >= 80 {
      SuffixOfSuffix(all, d, if ShortTail(ws, n) then n else Boundary(ws, n));
    }
  }

  /** A packet of another type stops the link for good: what came before it is fed, and the link does not listen. */
  lemma {:induction false} OtherTypeStopsTheLink(s: UdpState, datagram: seq<Byte>, ws: seq<seq<Byte>>)
    requires AllWellFormed(ws) && Joined(ws) <= s.buffer + datagram && OtherTypeAt(s.buffer + datagram, |Joined(ws)|)
    ensures var all := s.buffer + datagram;
      var history := Observe(FeedAll(Udp, s.history, PacketsOf(ws)), HeaderAt(all, |Joined(ws)|));
      Received(s, datagram) == UdpState(all, history, false)
  {
    hide Decode, WellFormed, FeedAll, PacketsOf, HeaderAt, Joined;
    DecodeOtherType(Udp, s.buffer + datagram, s.history, ws);
  }
}
