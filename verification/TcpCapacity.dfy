/**
 * How large the reception buffer of the TCP link becomes. It follows the scans completed, but of those that one read
 * completes only the last.
 */
module TcpCapacity {
  import opened LittleEndian
  import opened Numbers
  import opened Options
  import opened Sequences
  import opened Data
  import opened Payload
  import opened PacketExtraction
  import opened ScanAssembly
  import opened StreamDecoding
  import opened Streams
  import opened TcpLinks
  import opened TcpRuns

  function SizeOf(batch: seq<Packet>): nat {
    BufferSizeFor(Headers(batch))
  }

  /** A read completes a scan. */
  ghost predicate Completes(s: TcpState, bytes: seq<Byte>, batch: seq<Packet>) {
    && Decode(Tcp, s.buffer + bytes, 0, s.history).Stopped?
    && EmittedSince(Received(s, bytes).history.closed, |s.history.closed|, batch)
  }

  ghost predicate EmittedSince(closed: seq<Batch>, since: nat, batch: seq<Packet>) {
    exists i | since <= i < |closed| :: closed[i] == Emitted(batch)
  }

  /** It is the last that the read completes. */
  ghost predicate CompletesLast(s: TcpState, bytes: seq<Byte>, batch: seq<Packet>) {
    && Decode(Tcp, s.buffer + bytes, 0, s.history).Stopped?
    && LastEmitted(Received(s, bytes).history.closed, |s.history.closed|) == Some(batch)
  }

  function LastEmitted(closed: seq<Batch>, since: nat): Option<seq<Packet>> {
    if |closed| <= since then None
    else
      var last := closed[|closed| - 1];
      if last.Emitted? then Some(last.packets) else LastEmitted(closed[..|closed| - 1], since)
  }

  /** Only discarded batches follow it; and there is none only if all batches since then were discarded. */
  lemma {:induction false} NothingEmittedAfter(closed: seq<Batch>, since: nat)
    ensures match LastEmitted(closed, since)
      case None => forall i | since <= i < |closed| :: closed[i].Discarded?
      case Some(batch) => exists i | since <= i < |closed| ::
        closed[i] == Emitted(batch) && forall j | i < j < |closed| :: closed[j].Discarded?
  {
    if |closed| > since && closed[|closed| - 1].Discarded? {
      var before := closed[..|closed| - 1];
      NothingEmittedAfter(before, since);
      if LastEmitted(before, since).Some? {
        var batch := LastEmitted(before, since).value;
        var i :| since <= i < |before| && before[i] == Emitted(batch)
                 && forall j | i < j < |before| :: before[j].Discarded?;
        assert closed[i] == Emitted(batch);
      }
    }
  }

  lemma {:induction false} SizeNeededIsOfLast(closed: seq<Batch>, since: nat)
    ensures match LastEmitted(closed, since)
      case None => SizeNeeded(closed, since) == None
      case Some(batch) => SizeNeeded(closed, since) == Some(SizeOf(batch))
  {
    hide BufferSizeFor;
    if |closed| > since {
      SizeNeededIsOfLast(closed[..|closed| - 1], since);
    }
  }

  /** After a read the capacity is the larger of what it was and the size for the last scan completed, if any. */
  lemma {:induction false} CapacityAfterRead(s: TcpState, bytes: seq<Byte>)
    ensures var d, capacity := Decode(Tcp, s.buffer + bytes, 0, s.history), Received(s, bytes).capacity;
      if d.Stopped? then
        match LastEmitted(Received(s, bytes).history.closed, |s.history.closed|)
        case None => capacity == s.capacity
        case Some(batch) => capacity == Max(s.capacity, SizeOf(batch))
      else capacity == s.capacity
  {
    hide Decode, SizeOf;
    SizeNeededIsOfLast(Received(s, bytes).history.closed, |s.history.closed|);
  }

  /** Some read of a run completes a scan as its last. */
  ghost predicate SomeReadEndsWith(s: TcpState, chunks: seq<seq<Byte>>, batch: seq<Packet>)
    decreases |chunks|
  {
    chunks != [] &&
    (CompletesLast(s, chunks[0], batch) || SomeReadEndsWith(Received(s, chunks[0]), chunks[1..], batch))
  }

  ghost predicate SomeReadCompletes(s: TcpState, chunks: seq<seq<Byte>>, batch: seq<Packet>)
    decreases |chunks|
  {
    chunks != [] &&
    (Completes(s, chunks[0], batch) || SomeReadCompletes(Received(s, chunks[0]), chunks[1..], batch))
  }

  /**
   * Over any reads of any bytes, the capacity is exactly the largest of what it was and the sizes for the scans that
   * were the last of their read.
   */
  lemma {:induction false} CapacityIsTheLargest(s: TcpState, chunks: seq<seq<Byte>>)
    ensures var capacity := RunFrom(s, chunks).capacity;
      && s.capacity <= capacity
      && (forall batch | SomeReadEndsWith(s, chunks, batch) :: SizeOf(batch) <= capacity)
      && (capacity == s.capacity || exists batch :: SomeReadEndsWith(s, chunks, batch) && SizeOf(batch) == capacity)
    decreases |chunks|
  {
    hide Received, SizeOf, LastEmitted, Decode;
    if chunks != [] {
      var s', rest := Received(s, chunks[0]), chunks[1..];
      CapacityAfterRead(s, chunks[0]);
      CapacityIsTheLargest(s', rest);
      if RunFrom(s, chunks).capacity != s'.capacity {
        var batch :| SomeReadEndsWith(s', rest, batch) && SizeOf(batch) == RunFrom(s', rest).capacity;
        assert SomeReadEndsWith(s, chunks, batch);
      } else if s'.capacity != s.capacity {
        var batch := LastEmitted(s'.history.closed, |s.history.closed|).value;
        assert SomeReadEndsWith(s, chunks, batch);
      }
    }
  }

  /** From the connection on: 4096 bytes, or what the largest of these scans needs. */
  lemma {:induction false} CapacityFromConnection(chunks: seq<seq<Byte>>)
    ensures var capacity := RunFrom(INITIAL, chunks).capacity;
      && 4096 <= capacity <= 32768
      && (forall batch | SomeReadEndsWith(INITIAL, chunks, batch) :: SizeOf(batch) <= capacity)
      && (capacity == 4096 || exists batch :: SomeReadEndsWith(INITIAL, chunks, batch) && SizeOf(batch) == capacity)
  {
    CapacityIsTheLargest(INITIAL, chunks);
    AnyRunIsBounded(INITIAL, chunks);
  }

  /**
   * One read leaves room for all the scans it completes if and only if none of them needs more than what there was
   * before and than the last of them.
   */
  lemma {:induction false} RoomForAllIff(s: TcpState, bytes: seq<Byte>, last: seq<Packet>)
    requires CompletesLast(s, bytes, last)
    ensures (forall batch | Completes(s, bytes, batch) :: SizeOf(batch) <= Received(s, bytes).capacity)
       <==> (forall batch | Completes(s, bytes, batch) :: SizeOf(batch) <= s.capacity || SizeOf(batch) <= SizeOf(last))
  {
    hide Completes, SizeOf, Received, LastEmitted, Decode;
    CapacityAfterRead(s, bytes);
  }

  /** No read completes two scans. */
  ghost predicate OneScanAtATime(s: TcpState, chunks: seq<seq<Byte>>)
    decreases |chunks|
  {
    chunks != [] ==>
      && (forall batch | Completes(s, chunks[0], batch) :: CompletesLast(s, chunks[0], batch))
      && OneScanAtATime(Received(s, chunks[0]), chunks[1..])
  }

  /** Then the buffer has room for every scan completed so far, up to its maximum. */
  lemma {:induction false} RoomForEveryScan(s: TcpState, chunks: seq<seq<Byte>>, batch: seq<Packet>)
    requires OneScanAtATime(s, chunks) && SomeReadCompletes(s, chunks, batch)
    ensures SizeOf(batch) <= RunFrom(s, chunks).capacity
    decreases |chunks|
  {
    hide Received, Completes, CompletesLast, SizeOf, Decode;
    if Completes(s, chunks[0], batch) {
      assert SomeReadEndsWith(s, chunks, batch);
      CapacityIsTheLargest(s, chunks);
    } else {
      RoomForEveryScan(Received(s, chunks[0]), chunks[1..], batch);
    }
  }

  /** The sizes that headers announce are those of the packets themselves. */
  lemma {:induction false} PacketBytesAreBytes(ws: seq<seq<Byte>>)
    requires AllWellFormed(ws)
    ensures PacketBytes(Headers(PacketsOf(ws))) == |Joined(ws)|
  {
    hide WellFormed, HeaderOf, PacketOf, Headers, Joined;
    if ws != [] {
      var n := |ws| - 1;
      PacketBytesAreBytes(ws[..n]);
      assert ws == ws[..n] + [ws[n]];
      PacketsOfAppend(ws[..n], [ws[n]]);
      JoinedAppend(ws[..n], [ws[n]]);
      JoinedOne(ws[n]);
      var ps := PacketsOf(ws[..n]);
      OneMoreHeader(ps, PacketOf(ws[n]));
      SizeInHeader(ws[n]);
      assert PacketsOf([ws[n]]) == [PacketOf(ws[n])];
    } else {
      NoBytes();
    }
  }

  lemma {:induction false} NoBytes()
    ensures PacketBytes(Headers([])) == 0 && |Joined<Byte>([])| == 0
  {
  }

  lemma {:induction false} SizeInHeader(w: seq<Byte>)
    requires WellFormed(w)
    ensures PacketOf(w).header.packetSize == |w|
  {
    hide HeaderAt;
  }

  lemma {:induction false} OneMoreHeader(ps: seq<Packet>, p: Packet)
    ensures PacketBytes(Headers(ps + [p])) == PacketBytes(Headers(ps)) + p.header.packetSize
  {
    var hs := Headers(ps + [p]);
    assert hs[..|ps|] == Headers(ps);
  }

  // ----- A read that completes two scans -----

  /** A packet of type A, without padding. */
  function PlainPacket(scanNumber: U16, packetNumber: U16, numPointsScan: U16, points: nat): (w: seq<Byte>)
    requires 0 < points < 0x1000
  {
    EncodePacket(PlainHeader(scanNumber, packetNumber, numPointsScan, points), [], A, Ones(points))
  }

  function PlainHeader(scanNumber: U16, packetNumber: U16, numPointsScan: U16, points: nat): Header
    requires points < 0x1000
  {
    Header(MAGIC, 0x41, 76 + 4 * points, 76, scanNumber, packetNumber, 0, 0, 0, 0, numPointsScan, points,
           0, 0, 0, 0, 0, 0, 0)
  }

  function Ones(points: nat): (ps: seq<Point>)
    ensures |ps| == points && AllEncodable(A, ps)
  {
    seq(points, i => Point(1, 0))
  }

  lemma {:induction false} PlainPacketIs(scanNumber: U16, packetNumber: U16, numPointsScan: U16, points: nat)
    requires 0 < points < 0x1000
    ensures var w := PlainPacket(scanNumber, packetNumber, numPointsScan, points);
      && WellFormed(w) && |w| == 76 + 4 * points
      && PacketOf(w).header == PlainHeader(scanNumber, packetNumber, numPointsScan, points)
      && |PacketOf(w).distances| == points
  {
    hide WellFormed, PacketOf, EncodeHeader, EncodePoints, Ones;
    PacketRoundTrip(PlainHeader(scanNumber, packetNumber, numPointsScan, points), [], A, Ones(points));
    PointsRoundTrip(A, Ones(points));
  }

  /** Two packets of one scan, which the second completes, and one packet that is a scan. */
  ghost predicate TwoScans(p: Packet, q: Packet, r: Packet) {
    && p.header.scanNumber == q.header.scanNumber != r.header.scanNumber
    && p.header.packetNumber == r.header.packetNumber == 1 && q.header.packetNumber == 2
    && |p.distances| < p.header.numPointsScan == |p.distances| + |q.distances|
    && |r.distances| == r.header.numPointsScan > 0
  }

  lemma {:induction false} FedOneByOne(p: Packet, q: Packet, r: Packet)
    requires TwoScans(p, q, r)
    ensures FeedAll(Tcp, EMPTY, [p]) == History([], [p])
    ensures FeedAll(Tcp, EMPTY, [p, q, r]) == History([Emitted([p, q]), Emitted([r])], [])
  {
    hide Points;
    PointsSnoc([], p);
    PointsSnoc([p], q);
    PointsSnoc([], r);
    NoPoints();
    assert [] + [p] == [p] && [p] + [q] == [p, q] && [] + [r] == [r];
    FeedAllNone(Tcp, EMPTY);
    assert [p][..0] == [] && [p, q][..1] == [p] && [p, q, r][..2] == [p, q];
    assert FeedAll(Tcp, EMPTY, [p]) == Feed(Tcp, EMPTY, p);
    assert FeedAll(Tcp, EMPTY, [p, q]) == Feed(Tcp, History([], [p]), q) == History([Emitted([p, q])], []);
    assert FeedAll(Tcp, EMPTY, [p, q, r]) == Feed(Tcp, History([Emitted([p, q])], []), r);
    assert [Emitted([p, q])] + [Emitted([r])] == [Emitted([p, q]), Emitted([r])];
  }

  lemma {:induction false} NoPoints()
    ensures Points([]) == 0
  {
  }

  /**
   * The first scan needs 4176 bytes, the second 4096 or fewer, and the second read completes both: the buffer stays
   * as it was, too small for the first.
   */
  lemma {:induction false} SmallScanHidesLarger() returns (chunks: seq<seq<Byte>>, large: seq<Packet>)
    ensures Scheduled(INITIAL, chunks) && SomeReadCompletes(INITIAL, chunks, large)
    ensures SizeOf(large) == 4176 && RunFrom(INITIAL, chunks).capacity == 4096
  {
    var u, v, w := PlainPacket(0, 1, 1006, 1005), PlainPacket(0, 2, 1006, 1), PlainPacket(1, 1, 985, 985);
    PlainPacketIs(0, 1, 1006, 1005);
    PlainPacketIs(0, 2, 1006, 1);
    PlainPacketIs(1, 1, 985, 985);
    hide PlainPacket, WellFormed, PacketOf, PlainHeader;
    ReadBoth(u, v, w);
    chunks, large := [u, v + w], [PacketOf(u), PacketOf(v)];
    TwoReads(u, v + w);
    assert SomeReadCompletes(Received(INITIAL, u), [v + w], large);
  }

  lemma {:induction false} TwoReads(a: seq<Byte>, b: seq<Byte>)
    ensures RunFrom(INITIAL, [a, b]) == Received(Received(INITIAL, a), b)
    ensures Scheduled(INITIAL, [a, b]) <==>
      INITIAL.scheduled == Some(|a|) && Received(INITIAL, a).scheduled == Some(|b|)
    ensures forall batch :: SomeReadCompletes(INITIAL, [a, b], batch) <==>
      Completes(INITIAL, a, batch) || Completes(Received(INITIAL, a), b, batch)
  {
    hide Received, Completes;
    assert [a, b][1..] == [b];
    OneRead(Received(INITIAL, a), b);
  }

  lemma {:induction false} OneRead(s: TcpState, a: seq<Byte>)
    ensures RunFrom(s, [a]) == Received(s, a)
    ensures Scheduled(s, [a]) <==> s.scheduled == Some(|a|)
    ensures forall batch :: SomeReadCompletes(s, [a], batch) <==> Completes(s, a, batch)
  {
    hide Received, Completes;
    assert [a][1..] == [];
    assert RunFrom(Received(s, a), []) == Received(s, a) && Scheduled(Received(s, a), []);
    assert forall batch :: !SomeReadCompletes(Received(s, a), [], batch);
  }

  lemma {:induction false} ReadBoth(u: seq<Byte>, v: seq<Byte>, w: seq<Byte>)
    requires WellFormed(u) && WellFormed(v) && WellFormed(w)
    requires |u| == 4096 && |v| == 80 && |w| == 4016
    requires TwoScans(PacketOf(u), PacketOf(v), PacketOf(w))
    ensures var s, both := Received(INITIAL, u), [PacketOf(u), PacketOf(v)];
      && s.scheduled == Some(4096)
      && Completes(s, v + w, both) && SizeOf(both) == 4176
      && Received(s, v + w).capacity == 4096
  {
    hide WellFormed, PacketOf, Received, Decode, HistoryFrom, MissingAt, Completes, SizeOf, TwoScans, Aligned,
      FeedAll, Joined, Whole, Boundary;
    var ws, p, q, r := [u, v, w], PacketOf(u), PacketOf(v), PacketOf(w);
    FedOneByOne(p, q, r);
    ThreeInARow(u, v, w);
    StartsAligned(ws);
    StepOnStream(INITIAL, ws, 0, u);
    var s := Received(INITIAL, u);
    StaysAligned(INITIAL, ws, 0, u);
    StepOnStream(s, ws, 4096, v + w);
    BothCompleted(s, v + w, [p, q], [r]);
    CapacityAfterRead(INITIAL, u);
    CapacityAfterRead(s, v + w);
    SizesOf(u, v, w);
  }

  lemma {:induction false} ThreeInARow(u: seq<Byte>, v: seq<Byte>, w: seq<Byte>)
    requires WellFormed(u) && WellFormed(v) && WellFormed(w)
    ensures var ws, n, m := [u, v, w], |u|, |u| + |v| + |w|;
      && AllWellFormed(ws) && |Joined(ws)| == m
      && Next(ws, 0, u) && Next(ws, n, v + w)
      && !ShortTail(ws, n) && !ShortTail(ws, m) && MissingAt(ws, n) == MissingAt(ws, m) == 0
      && Unread(ws, n) == []
      && HistoryFrom(Tcp, EMPTY, ws, n) == FeedAll(Tcp, EMPTY, [PacketOf(u)])
      && HistoryFrom(Tcp, EMPTY, ws, m) == FeedAll(Tcp, EMPTY, [PacketOf(u), PacketOf(v), PacketOf(w)])
  {
    var ws, n, m := [u, v, w], |u|, |u| + |v| + |w|;
    assert |v| > 0 && |w| > 0;
    hide WellFormed, PacketOf, FeedAll;
    ThreePackets(u, v, w);
    hide Joined, Whole, Boundary, PacketsOf;
    assert ws[..1] == [u] && ws[..3] == ws;
  }

  lemma {:induction false} ThreePackets(u: seq<Byte>, v: seq<Byte>, w: seq<Byte>)
    requires WellFormed(u) && WellFormed(v) && WellFormed(w) && |v| > 0 && |w| > 0
    ensures var ws, n, m := [u, v, w], |u|, |u| + |v| + |w|;
      && AllWellFormed(ws) && Joined(ws) == u + (v + w)
      && Whole(ws, n) == 1 && Boundary(ws, n) == n && Whole(ws, m) == 3 && Boundary(ws, m) == m
      && PacketsOf([u]) == [PacketOf(u)] && PacketsOf(ws) == [PacketOf(u), PacketOf(v), PacketOf(w)]
  {
    hide WellFormed, PacketOf;
    var ws, n, m := [u, v, w], |u|, |u| + |v| + |w|;
    assert ws[1..] == [v, w] && [v, w][1..] == [w] && [w][1..] == [];
    assert Joined([w]) == w && Joined([v, w]) == v + w && Joined(ws) == u + (v + w);
    assert Whole([w], |w|) == 1 && Whole([v, w], |v| + |w|) == 2 && Whole(ws, m) == 3 && Whole(ws, n) == 1;
    assert Boundary([w], |w|) == |w| && Boundary([v, w], |v| + |w|) == |v| + |w| && Boundary(ws, m) == m;
  }

  lemma {:induction false} BothCompleted(s: TcpState, bytes: seq<Byte>, a: seq<Packet>, b: seq<Packet>)
    requires Decode(Tcp, s.buffer + bytes, 0, s.history).Stopped?
    requires s.history.closed == [] && Received(s, bytes).history.closed == [Emitted(a), Emitted(b)]
    ensures Completes(s, bytes, a)
    ensures LastEmitted(Received(s, bytes).history.closed, 0) == Some(b)
  {
    hide Decode, Received;
    var closed := Received(s, bytes).history.closed;
    assert closed[0] == Emitted(a) && closed[1] == Emitted(b);
  }

  lemma {:induction false} SizesOf(u: seq<Byte>, v: seq<Byte>, w: seq<Byte>)
    requires WellFormed(u) && WellFormed(v) && WellFormed(w)
    requires |u| == 4096 && |v| == 80 && |w| == 4016
    ensures SizeOf([PacketOf(u), PacketOf(v)]) == 4176 && SizeOf([PacketOf(w)]) == 4096
  {
    hide WellFormed, PacketOf, Headers, PacketBytes;
    SizeInHeader(u);
    SizeInHeader(v);
    SizeInHeader(w);
    OneMoreHeader([], PacketOf(u));
    OneMoreHeader([PacketOf(u)], PacketOf(v));
    OneMoreHeader([], PacketOf(w));
    NoBytes();
    assert [] + [PacketOf(u)] == [PacketOf(u)] && [] + [PacketOf(w)] == [PacketOf(w)];
    assert [PacketOf(u)] + [PacketOf(v)] == [PacketOf(u), PacketOf(v)];
  }
}
