/**
 * Whole runs of the TCP link over a stream of packets: what is kept after each read, what has been published, where
 * the reads land, and exactly when no byte is lost.
 */
module TcpRuns {
  import opened LittleEndian
  import opened Numbers
  import opened Options
  import opened Sequences
  import opened Data
  import opened PacketExtraction
  import opened ScanAssembly
  import opened StreamDecoding
  import opened Streams
  import opened TcpLinks

  // ----- Aligned states -----

  /**
   * After n bytes of the stream: exactly the bytes of the packet begun are kept, the history is that of decoding the
   * whole stream at once, and the next read stays inside the packet begun, if there is one.
   */
  ghost predicate Aligned(s: TcpState, ws: seq<seq<Byte>>, n: nat)
    requires AllWellFormed(ws)
  {
    && n <= |Joined(ws)| && !ShortTail(ws, n)
    && s.buffer == Unread(ws, n)
    && s.history == HistoryFrom(Tcp, EMPTY, ws, n)
    && DEFAULT_RECEPTION_BUFFER_SIZE <= s.capacity <= MAX_RECEPTION_BUFFER_SIZE
    && s.scheduled.Some? && ReadFits(s.scheduled.value, s.capacity, MissingAt(ws, n))
  }

  /** All that is missing, or the size of a buffer that cannot hold it. */
  predicate ReadFits(read: nat, capacity: nat, missing: nat) {
    && 0 < read <= capacity
    && (missing > 0 ==> read <= missing)
    && (read == missing || DEFAULT_RECEPTION_BUFFER_SIZE <= read)
  }

  lemma {:induction false} StartsAligned(ws: seq<seq<Byte>>)
    requires AllWellFormed(ws)
    ensures Aligned(INITIAL, ws, 0)
  {
    assert Whole(ws, 0) == 0 && Boundary(ws, 0) == 0 by {
      if ws != [] {
        assert WellFormed(ws[0]);
      }
    }
    assert ws[..0] == [];
  }

  // ----- One step of the link -----

  /** What a step that reaches byte n of the stream makes of the link: only a short tail is not kept. */
  ghost predicate Reached(s: TcpState, s': TcpState, ws: seq<seq<Byte>>, n: nat)
    requires AllWellFormed(ws) && n <= |Joined(ws)|
  {
    && s'.history == HistoryFrom(Tcp, EMPTY, ws, n)
    && s'.buffer == (if ShortTail(ws, n) then [] else Unread(ws, n))
    && s'.scheduled == Some(NextRead(MissingAt(ws, n), s.capacity))
    && s.capacity <= s'.capacity <= MAX_RECEPTION_BUFFER_SIZE
  }

  /** Decoding on from this history comes to decoding the stream up to n' at once. */
  ghost predicate Continues(h: History, ws: seq<seq<Byte>>, n: nat, n': nat)
    requires AllWellFormed(ws) && n <= n' <= |Joined(ws)|
  {
    var k, b := Whole(ws, n), Boundary(ws, n);
    n' - b <= |Joined(ws[k..])| &&
    HistoryFrom(Tcp, h, ws[k..], n' - b) == HistoryFrom(Tcp, EMPTY, ws, n')
  }

  lemma {:induction false} StoppedIsReceived(s: TcpState, bytes: seq<Byte>)
    ensures var all, s' := s.buffer + bytes, Received(s, bytes);
      var d := Decode(Tcp, all, 0, s.history);
      d.Stopped? && d.position <= |all| ==>
        && s'.buffer == all[d.position..] && s'.history == d.history
        && s'.scheduled == Some(NextRead(d.missing, s.capacity))
        && s.capacity <= s'.capacity && (s.capacity <= MAX_RECEPTION_BUFFER_SIZE ==> s'.capacity <= MAX_RECEPTION_BUFFER_SIZE)
  {
    hide Decode, NextRead;
  }

  /**
   * The next bytes of the stream, behind a gap that the loop skips: it can stand before them only if nothing of the
   * packet begun is kept.
   */
  lemma {:induction false} StepFrom(s: TcpState, ws: seq<seq<Byte>>, n: nat, gap: seq<Byte>, bytes: seq<Byte>)
    requires AllWellFormed(ws) && Next(ws, n, bytes) && Continues(s.history, ws, n, n + |bytes|)
    requires s.buffer == Unread(ws, n) && (gap == [] || s.buffer == [])
    requires s.capacity <= MAX_RECEPTION_BUFFER_SIZE
    requires var all := s.buffer + (gap + bytes);
      Decode(Tcp, all, 0, s.history) == Decode(Tcp, all, |gap|, s.history)
    ensures Decode(Tcp, s.buffer + (gap + bytes), 0, s.history).Stopped?
    ensures Reached(s, Received(s, gap + bytes), ws, n + |bytes|)
  {
    hide WellFormed, Decode, HistoryFrom, MissingAt, Joined, Whole, Boundary, Received, NextRead;
    var n', b := n + |bytes|, Boundary(ws, n);
    var rest, m := ws[Whole(ws, n)..], n' - b;
    var all, d := s.buffer + (gap + bytes), |gap|;
    SameTail(ws, n, n');
    EitherFirst(s.buffer, gap, bytes);
    Consecutive(Joined(ws), b, n, n');
    DecodeStream(Tcp, all, d, s.history, rest, m);
    StoppedIsReceived(s, gap + bytes);
    SameSuffix(all, d, Joined(ws), b, n', Boundary(rest, m));
    assert ShortTail(ws, n') ==> all[d + m..] == [];
  }

  /**
   * From an aligned state any bytes of the stream, as many as they are, bring the history of decoding the stream up
   * to there at once, and keep exactly the bytes of the packet begun. Only a short tail is not kept: it is dropped.
   */
  lemma {:induction false} StepOnStream(s: TcpState, ws: seq<seq<Byte>>, n: nat, bytes: seq<Byte>)
    requires AllWellFormed(ws) && Aligned(s, ws, n) && Next(ws, n, bytes)
    ensures Decode(Tcp, s.buffer + bytes, 0, s.history).Stopped?
    ensures Reached(s, Received(s, bytes), ws, n + |bytes|)
  {
    hide WellFormed, Decode, HistoryFrom, Reached, MissingAt, Joined, Unread, Whole, Boundary;
    HistoryContinues(Tcp, EMPTY, ws, n, n + |bytes|);
    assert [] + bytes == bytes;
    StepFrom(s, ws, n, [], bytes);
  }

  // ----- Runs -----

  function RunFrom(s: TcpState, chunks: seq<seq<Byte>>): TcpState
    decreases |chunks|
  {
    if chunks == [] then s else RunFrom(Received(s, chunks[0]), chunks[1..])
  }

  /** Every read delivers exactly the number of bytes scheduled for it. */
  predicate Scheduled(s: TcpState, chunks: seq<seq<Byte>>)
    decreases |chunks|
  {
    chunks == [] || (s.scheduled == Some(|chunks[0]|) && Scheduled(Received(s, chunks[0]), chunks[1..]))
  }

  /** After every read the buffer holds exactly the bytes of the stream that no packet has used up. */
  predicate NothingLost(s: TcpState, ws: seq<seq<Byte>>, n: nat, chunks: seq<seq<Byte>>)
    decreases |chunks|
  {
    && n <= |Joined(ws)| && s.buffer == Unread(ws, n)
    && (chunks == [] || NothingLost(Received(s, chunks[0]), ws, n + |chunks[0]|, chunks[1..]))
  }

  lemma {:induction false} StaysAligned(s: TcpState, ws: seq<seq<Byte>>, n: nat, bytes: seq<Byte>)
    requires AllWellFormed(ws) && Aligned(s, ws, n) && Next(ws, n, bytes)
    requires !ShortTail(ws, n + |bytes|)
    ensures Aligned(Received(s, bytes), ws, n + |bytes|)
  {
    hide Received, HistoryFrom, Unread, WellFormed, MissingAt, Decode;
    StepOnStream(s, ws, n, bytes);
  }

  lemma {:induction false} AlignedBuffer(s: TcpState, ws: seq<seq<Byte>>, n: nat)
    requires AllWellFormed(ws) && Aligned(s, ws, n)
    ensures n <= |Joined(ws)| && !ShortTail(ws, n) && s.buffer == Unread(ws, n)
  {
  }

  /**
   * However the stream is cut into reads, no byte of it is ever lost if and only if no read ends between 1 and 79
   * bytes into a packet.
   */
  lemma {:induction false} NothingLostIffNoShortTail(s: TcpState, ws: seq<seq<Byte>>, n: nat, chunks: seq<seq<Byte>>)
    requires AllWellFormed(ws) && Aligned(s, ws, n) && Delivers(ws, n, chunks)
    ensures NothingLost(s, ws, n, chunks) <==> NoShortTails(ws, n, chunks)
    decreases |chunks|
  {
    hide Received, HistoryFrom, WellFormed, MissingAt, Delivers, Joined, Decode, Boundary, Aligned;
    AlignedBuffer(s, ws, n);
    if chunks != [] {
      var n' := n + |chunks[0]|;
      FirstRead(ws, n, chunks);
      if ShortTail(ws, n') {
        StepOnStream(s, ws, n, chunks[0]);
        assert |Unread(ws, n')| > 0;
      } else {
        StaysAligned(s, ws, n, chunks[0]);
        NothingLostIffNoShortTail(Received(s, chunks[0]), ws, n', chunks[1..]);
      }
    }
  }

  lemma {:induction false} RunStaysAligned(s: TcpState, ws: seq<seq<Byte>>, n: nat, chunks: seq<seq<Byte>>)
    requires AllWellFormed(ws) && Aligned(s, ws, n) && Delivers(ws, n, chunks)
    requires NoShortTails(ws, n, chunks)
    ensures Aligned(RunFrom(s, chunks), ws, n + |Joined(chunks)|)
    decreases |chunks|
  {
    hide Received, HistoryFrom, Unread, WellFormed, MissingAt, Delivers, Decode, ShortTail, Aligned;
    if chunks != [] {
      FirstRead(ws, n, chunks);
      assert !ShortTail(ws, n + |chunks[0]|);
      StaysAligned(s, ws, n, chunks[0]);
      RunStaysAligned(Received(s, chunks[0]), ws, n + |chunks[0]|, chunks[1..]);
    }
  }

  /** Whether or not a header has been seen, the batches emitted are those of the packets fed. */
  lemma {:induction false} SeeingPublishesNothing(h: History, header: Header, scans: seq<Scan>)
    ensures Publishes(Tcp, Observe(h, header).closed, scans) <==> Publishes(Tcp, h.closed, scans)
  {
    assert (h.closed + [Discarded(h.open)])[..|h.closed|] == h.closed;
  }

  /**
   * Incremental decoding refines decoding the whole stream: after any reads that leave no short tail, the scans
   * published are those of the packets that have come completely, as if these had been fed in one go.
   */
  lemma {:induction false} IncrementalRefinesWhole(ws: seq<seq<Byte>>, chunks: seq<seq<Byte>>, scans: seq<Scan>)
    requires AllWellFormed(ws) && Delivers(ws, 0, chunks) && NoShortTails(ws, 0, chunks)
    ensures var n := |Joined(chunks)|;
      && RunFrom(INITIAL, chunks).buffer == Unread(ws, n)
      && (Publishes(Tcp, RunFrom(INITIAL, chunks).history.closed, scans)
          <==> Publishes(Tcp, FeedAll(Tcp, EMPTY, PacketsIn(ws, n)).closed, scans))
  {
    hide WellFormed, Delivers, NoShortTails, RunFrom, FeedAll, Observe, Publishes, Unread, HeaderOf;
    StartsAligned(ws);
    RunStaysAligned(INITIAL, ws, 0, chunks);
    var n := |Joined(chunks)|;
    var whole := FeedAll(Tcp, EMPTY, PacketsIn(ws, n));
    if SeenHeader(ws, n).Some? {
      SeeingPublishesNothing(whole, SeenHeader(ws, n).value, scans);
    }
  }

  // ----- The schedule of reads -----

  lemma {:induction false} MissingIsTheRest(ws: seq<seq<Byte>>, n: nat)
    requires AllWellFormed(ws) && n <= |Joined(ws)| && Tail(ws, n) >= HEADER_OBJECT_SIZE
    ensures Whole(ws, n) < |ws| && MissingAt(ws, n) > 0
    ensures Boundary(ws, n) + |ws[Whole(ws, n)]| == n + MissingAt(ws, n) <= |Joined(ws)|
  {
    hide WellFormed;
    var k := Whole(ws, n);
    SplitAt(ws, n);
    JoinedAppend(ws[..k], ws[k..]);
    assert ws == ws[..k] + ws[k..];
    assert |ws[k]| <= |Joined(ws[k..])|;
  }

  /** Inside the packet begun, more of it leaves less of it missing. */
  lemma {:induction false} LessIsMissing(ws: seq<seq<Byte>>, n: nat, read: nat)
    requires AllWellFormed(ws) && n <= |Joined(ws)| && Tail(ws, n) >= HEADER_OBJECT_SIZE
    requires read <= MissingAt(ws, n)
    ensures n + read <= |Joined(ws)|
    ensures !ShortTail(ws, n + read) && MissingAt(ws, n + read) == MissingAt(ws, n) - read
    ensures Tail(ws, n + read) == 0 <==> read == MissingAt(ws, n)
  {
    hide WellFormed;
    MissingIsTheRest(ws, n);
    InsidePacket(ws, n, n + read);
    SplitAt(ws, n + read);
    SplitAt(ws, n);
  }

  /** A read inside a packet goes no further than its end, and never leaves a short tail. */
  lemma {:induction false} ReadsNeverOvershoot(s: TcpState, ws: seq<seq<Byte>>, n: nat)
    requires AllWellFormed(ws) && Aligned(s, ws, n) && Tail(ws, n) > 0
    ensures 0 < s.scheduled.value <= MissingAt(ws, n)
    ensures Whole(ws, n) < |ws| && Boundary(ws, n) + |ws[Whole(ws, n)]| == n + MissingAt(ws, n) <= |Joined(ws)|
    ensures !ShortTail(ws, n + s.scheduled.value)
    ensures MissingAt(ws, n + s.scheduled.value) == MissingAt(ws, n) - s.scheduled.value
    ensures Tail(ws, n + s.scheduled.value) == 0 <==> s.scheduled.value == MissingAt(ws, n)
  {
    hide WellFormed, MissingAt, HistoryFrom, Boundary, Whole, Joined;
    MissingIsTheRest(ws, n);
    LessIsMissing(ws, n, s.scheduled.value);
  }

  lemma {:induction false} InsidePacket(ws: seq<seq<Byte>>, n: nat, n': nat)
    requires AllWellFormed(ws) && Whole(ws, n) < |ws| && n <= n' <= Boundary(ws, n) + |ws[Whole(ws, n)]|
    ensures if n' < Boundary(ws, n) + |ws[Whole(ws, n)]|
            then Whole(ws, n') == Whole(ws, n) && Boundary(ws, n') == Boundary(ws, n)
            else Boundary(ws, n') == n'
  {
    var rest, m := ws[Whole(ws, n)..], n' - Boundary(ws, n);
    ReadOn(ws, n, n');
    if m >= |rest[0]| && |rest| > 1 {
      assert WellFormed(ws[Whole(ws, n) + 1]);
    }
  }

  /** Short tails can only come from reads that start a packet: those of a whole buffer. */
  lemma {:induction false} OnlyFullReadsLoseBytes(s: TcpState, ws: seq<seq<Byte>>, n: nat)
    requires AllWellFormed(ws) && Aligned(s, ws, n) && ShortTail(ws, n + s.scheduled.value)
    ensures s.buffer == [] && Boundary(ws, n) == n && s.scheduled.value >= DEFAULT_RECEPTION_BUFFER_SIZE
  {
    hide WellFormed;
    if Tail(ws, n) > 0 {
      ReadsNeverOvershoot(s, ws, n);
    }
  }

  /**
   * Once a packet has been begun, the reads that follow add up to exactly its missing bytes: one of them ends on its
   * last byte, within as many reads as buffers of the default size are needed, and the buffer is then empty.
   */
  lemma {:induction false} LandsOnTheBoundary(s: TcpState, ws: seq<seq<Byte>>, n: nat, chunks: seq<seq<Byte>>)
    returns (j: nat)
    requires AllWellFormed(ws) && Aligned(s, ws, n) && Tail(ws, n) > 0
    requires Delivers(ws, n, chunks) && Scheduled(s, chunks) && |Joined(chunks)| >= MissingAt(ws, n)
    ensures 0 < j <= |chunks| && |Joined(chunks[..j])| == MissingAt(ws, n)
    ensures DEFAULT_RECEPTION_BUFFER_SIZE * (j - 1) < MissingAt(ws, n)
    ensures RunFrom(s, chunks[..j]).buffer == []
    decreases |chunks|
  {
    hide WellFormed, HistoryFrom, Received, MissingAt, Decode, Boundary;
    ReadsNeverOvershoot(s, ws, n);
    assert chunks != [];
    var read := s.scheduled.value;
    FirstRead(ws, n, chunks);
    StaysAligned(s, ws, n, chunks[0]);
    var s' := Received(s, chunks[0]);
    if read == MissingAt(ws, n) {
      j := 1;
      assert chunks[..1] == [chunks[0]];
    } else {
      var i := LandsOnTheBoundary(s', ws, n + read, chunks[1..]);
      j := i + 1;
      assert chunks[..j] == [chunks[0]] + chunks[1..][..i];
    }
  }

  // ----- Bounds -----

  lemma {:induction false} WellFormedIsSmall(w: seq<Byte>)
    requires WellFormed(w)
    ensures |w| < 0x8_0000
  {
  }

  /** Inside the packet begun there is room for all of it; otherwise a whole reception buffer is read. */
  lemma {:induction false} ReadIsBounded(s: TcpState, ws: seq<seq<Byte>>, n: nat, largest: nat)
    requires AllWellFormed(ws) && Aligned(s, ws, n)
    requires forall i | 0 <= i < |ws| :: |ws[i]| <= largest
    ensures |s.buffer| + s.scheduled.value <= Max(largest, MAX_RECEPTION_BUFFER_SIZE)
    ensures |s.buffer| + s.scheduled.value < TWO32
  {
    hide HeaderAt, Joined, HistoryFrom, MissingAt, Boundary, Whole;
    if Tail(ws, n) > 0 {
      ReadsNeverOvershoot(s, ws, n);
      SplitAt(ws, n);
      WellFormedIsSmall(ws[Whole(ws, n)]);
    }
  }

  /**
   * From an aligned state, the extraction buffer never holds more than the largest packet, or a full reception buffer;
   * and the next bytes of the stream meet the demands of the handler of the read.
   */
  lemma {:induction false} BufferIsBounded(s: TcpState, ws: seq<seq<Byte>>, n: nat, largest: nat)
    requires AllWellFormed(ws) && Aligned(s, ws, n)
    requires forall i | 0 <= i < |ws| :: |ws[i]| <= largest
    ensures |s.buffer| + s.scheduled.value <= Max(largest, MAX_RECEPTION_BUFFER_SIZE)
    ensures |s.buffer| + s.scheduled.value < TWO32
    ensures var next := n + s.scheduled.value;
      next <= |Joined(ws)| ==> Runs(Decode(Tcp, s.buffer + Joined(ws)[n..next], 0, s.history))
  {
    hide Decode, Joined, WellFormed, HistoryFrom, MissingAt, Boundary, Whole, Reached, Received;
    ReadIsBounded(s, ws, n, largest);
    var next := n + s.scheduled.value;
    if next <= |Joined(ws)| {
      StepOnStream(s, ws, n, Joined(ws)[n..next]);
    }
  }

  predicate Bounded(s: TcpState) {
    && DEFAULT_RECEPTION_BUFFER_SIZE <= s.capacity <= MAX_RECEPTION_BUFFER_SIZE
    && (s.scheduled.Some? ==> 1 <= s.scheduled.value <= s.capacity)
  }

  /**
   * Whatever bytes come, the reception buffer only grows, inside its bounds, and a read asks for 1 byte to all it
   * holds.
   */
  lemma {:induction false} AnyRunIsBounded(s: TcpState, chunks: seq<seq<Byte>>)
    requires Bounded(s)
    ensures Bounded(RunFrom(s, chunks)) && s.capacity <= RunFrom(s, chunks).capacity
    decreases |chunks|
  {
    if chunks != [] {
      AnyStepIsBounded(s, chunks[0]);
      AnyRunIsBounded(Received(s, chunks[0]), chunks[1..]);
    }
  }

  lemma {:induction false} AnyStepIsBounded(s: TcpState, bytes: seq<Byte>)
    requires Bounded(s)
    ensures Bounded(Received(s, bytes)) && s.capacity <= Received(s, bytes).capacity
    ensures var all := s.buffer + bytes;
      var kept := |Received(s, bytes).buffer|;
      kept <= |all| && Received(s, bytes).buffer == all[|all| - kept..]
  {
    hide Decode;
  }

  /** After a scan the reception buffer holds all its packets, if the bounds allow it. */
  lemma {:induction false} BufferGrowsToTheScan(s: TcpState, bytes: seq<Byte>)
    requires Decode(Tcp, s.buffer + bytes, 0, s.history).Stopped?
    ensures var closed := Received(s, bytes).history.closed;
      |closed| > |s.history.closed| && closed[|closed| - 1].Emitted? ==>
        var size := PacketBytes(Headers(closed[|closed| - 1].packets));
        size <= MAX_RECEPTION_BUFFER_SIZE ==> size <= Received(s, bytes).capacity
  {
    hide Decode;
  }

  // ----- A short tail -----

  function LargePacketByte(i: nat): Byte {
    if i == 0 then MAGIC_LOW else if i == 1 then MAGIC_HIGH else if i == 2 then 0x41
    else if i == 4 then 0xEC else if i == 5 then 0x0F else if i == 8 then 76 else if i == 12 then 1
    else if i == 38 then 0x10 else if i == 39 then 0x0E else if i == 40 then 0xE8 else if i == 41 then 0x03 else 0
  }

  /** A packet of 4076 bytes, with 1000 points of type A. */
  function LargePacket(): (w: seq<Byte>)
    ensures |w| == 4076
  {
    seq(4076, i requires 0 <= i => LargePacketByte(i))
  }

  lemma {:induction false} LargePacketIsWellFormed()
    ensures WellFormed(LargePacket())
  {
    var w := LargePacket();
    LargePacketFields(w);
    hide LargePacket, LargePacketByte;
    SizesAt(w);
  }

  lemma {:induction false} LargePacketFields(w: seq<Byte>)
    requires |w| == 4076 && forall i | 0 <= i < |w| :: w[i] == LargePacketByte(i)
    ensures U16At(w, 2) == 0x41 && U32At(w, 4) == 4076 && U16At(w, 8) == 76 && U16At(w, 40) == 1000
    ensures MagicAt(w, 0)
  {
  }

  lemma {:induction false} SizesAt(w: seq<Byte>)
    requires |w| >= HEADER_FIELDS_SIZE
    ensures var h := HeaderOf(w);
      && h.packetType == U16At(w, 2) && h.packetSize == U32At(w, 4)
      && h.headerSize == U16At(w, 8) && h.numPointsPacket == U16At(w, 40)
  {
    hide U16At, U32At, U64At;
  }

  /** Two of them: the first read of 4096 bytes takes 20 bytes of the second, and they are lost. */
  lemma {:induction false} ShortTailLosesBytes() returns (ws: seq<seq<Byte>>, chunk: seq<Byte>)
    ensures AllWellFormed(ws) && Delivers(ws, 0, [chunk]) && Scheduled(INITIAL, [chunk])
    ensures |Unread(ws, |chunk|)| == 20 && Received(INITIAL, chunk).buffer == []
  {
    var w := LargePacket();
    LargePacketIsWellFormed();
    hide LargePacket, Received, Decode, WellFormed, HistoryFrom, MissingAt;
    ws := [w, w];
    JoinedAppend([w], [w]);
    JoinedOne(w);
    assert ws == [w] + [w];
    chunk := Joined(ws)[..4096];
    JoinedOne(chunk);
    StartsAligned(ws);
    assert Boundary(ws, 4096) == 4076;
    StepOnStream(INITIAL, ws, 0, chunk);
  }

  /**
   * A packet of another type stops the link for good: what came before it is fed, everything received stays in the
   * buffer, and no read is scheduled any more.
   */
  lemma {:induction false} OtherTypeStopsTheLink(s: TcpState, bytes: seq<Byte>, ws: seq<seq<Byte>>)
    requires AllWellFormed(ws) && Joined(ws) <= s.buffer + bytes && OtherTypeAt(s.buffer + bytes, |Joined(ws)|)
    ensures var all := s.buffer + bytes;
      var history := Observe(FeedAll(Tcp, s.history, PacketsOf(ws)), HeaderAt(all, |Joined(ws)|));
      Received(s, bytes) == TcpState(all, history, s.capacity, None)
  {
    hide Decode, WellFormed, FeedAll, PacketsOf, HeaderAt, Joined;
    DecodeOtherType(Tcp, s.buffer + bytes, s.history, ws);
  }
}
