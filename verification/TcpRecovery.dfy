/**
 * What follows a short tail over TCP. The bytes dropped are the first of a packet; what then comes of that packet is a
 * gap in front of the packets after it. The link skips the gap and goes on without that one packet, unless a read ends
 * where the header behind the gap is searched for and is not all there: then it is read past the end of the buffer.
 */
module TcpRecovery {
  import opened LittleEndian
  import opened Numbers
  import opened Options
  import opened Sequences
  import opened Data
  import opened PacketExtraction
  import opened ScanAssembly
  import opened StreamDecoding
  import opened Streams
  import opened TcpLinks
  import opened TcpRuns

  /** No packet seems to start in these bytes. */
  predicate NoMagicIn(s: seq<Byte>) {
    forall i | 0 <= i < |s| :: !MagicAt(s, i)
  }

  /** No packet seems to start inside any of these. */
  ghost predicate AllPlain(ws: seq<seq<Byte>>) {
    forall i | 0 <= i < |ws| :: |ws[i]| > 0 && NoMagicIn(ws[i][1..])
  }

  // ----- States after a short tail -----

  /** The stream goes on at byte n of these packets, behind the gap. Nothing is kept. */
  ghost predicate Skipping(s: TcpState, ws: seq<seq<Byte>>, n: nat, gap: seq<Byte>)
    requires AllWellFormed(ws)
  {
    gap != [] && NoMagicIn(gap) && Aligned(s, ws, n) && Tail(ws, n) == 0
  }

  /** Behind a gap, 76 to 79 bytes of a packet are kept: enough to decode its header. */
  ghost predicate Holding(s: TcpState, ws: seq<seq<Byte>>, n: nat)
    requires AllWellFormed(ws)
  {
    && n <= |Joined(ws)| && HEADER_FIELDS_SIZE <= Tail(ws, n) < HEADER_OBJECT_SIZE
    && s.buffer == Unread(ws, n)
    && Whole(ws, n) < |ws|
    && s.history == Observe(FeedAll(Tcp, EMPTY, PacketsIn(ws, n)), FirstHeader(ws[Whole(ws, n)..]))
    && DEFAULT_RECEPTION_BUFFER_SIZE <= s.capacity <= MAX_RECEPTION_BUFFER_SIZE
    && s.scheduled == Some(Min(|ws[Whole(ws, n)]| - Tail(ws, n), s.capacity))
  }

  ghost function FirstHeader(ws: seq<seq<Byte>>): Header
    requires AllWellFormed(ws) && ws != []
  {
    HeaderOf(ws[0])
  }

  /** All the states of a link that still reads. */
  ghost predicate Follows(s: TcpState, ws: seq<seq<Byte>>, n: nat, gap: seq<Byte>)
    requires AllWellFormed(ws)
  {
    if gap == [] then Aligned(s, ws, n) || Holding(s, ws, n) else Skipping(s, ws, n, gap)
  }

  /** What is still to come. */
  function Remaining(ws: seq<seq<Byte>>, n: nat, gap: seq<Byte>): seq<Byte>
    requires n <= |Joined(ws)|
  {
    gap + Joined(ws)[n..]
  }

  /** The packet cut off at byte n, and the stream without it. */
  function WithoutPacket(ws: seq<seq<Byte>>, n: nat): seq<seq<Byte>>
    requires Whole(ws, n) < |ws|
  {
    RemoveAt(ws, Whole(ws, n))
  }

  function GapAt(ws: seq<seq<Byte>>, n: nat): seq<Byte>
    requires Whole(ws, n) < |ws| && Tail(ws, n) <= |ws[Whole(ws, n)]|
  {
    ws[Whole(ws, n)][Tail(ws, n)..]
  }

  lemma {:induction false} AtBoundary(a: seq<seq<Byte>>, b: seq<seq<Byte>>)
    requires b == [] || b[0] != []
    ensures Whole(a + b, |Joined(a)|) == |a| && Boundary(a + b, |Joined(a)|) == |Joined(a)|
  {
    if a != [] {
      AtBoundary(a[1..], b);
      assert (a + b)[1..] == a[1..] + b;
    } else {
      assert a + b == b;
    }
  }

  /** The stream without the packet cut off is the same up to it, and what is to come of the two differs by the gap. */
  lemma {:induction false} CutStream(ws: seq<seq<Byte>>, n: nat)
    requires AllWellFormed(ws) && n <= |Joined(ws)| && Tail(ws, n) > 0
    ensures Whole(ws, n) < |ws| && Tail(ws, n) < |ws[Whole(ws, n)]|
    ensures var kept, b := WithoutPacket(ws, n), Boundary(ws, n);
      && AllWellFormed(kept) && b <= |Joined(kept)|
      && Whole(kept, b) == Whole(ws, n) && Boundary(kept, b) == b
      && kept[..Whole(ws, n)] == ws[..Whole(ws, n)]
      && Remaining(kept, b, GapAt(ws, n)) == Joined(ws)[n..]
  {
    hide WellFormed, Joined, Whole, Boundary;
    var k, b := Whole(ws, n), Boundary(ws, n);
    SplitAt(ws, n);
    JoinedAround(ws, k);
    NonEmpty();
    assert k + 1 < |ws| ==> WellFormed(ws[k + 1]);
    AtBoundary(ws[..k], ws[k + 1..]);
    FromTheMiddle(Joined(ws[..k]), ws[k], Joined(ws[k + 1..]), Tail(ws, n));
  }

  lemma {:induction false} NonEmpty()
    ensures forall w | WellFormed(w) :: |w| > 0
  {
  }

  lemma {:induction false} PlainGap(ws: seq<seq<Byte>>, n: nat)
    requires AllPlain(ws) && Tail(ws, n) > 0 && Whole(ws, n) < |ws| && Tail(ws, n) <= |ws[Whole(ws, n)]|
    ensures NoMagicIn(GapAt(ws, n))
    ensures AllPlain(WithoutPacket(ws, n))
  {
    var w, tail := ws[Whole(ws, n)], Tail(ws, n);
    forall i | 0 <= i < |w| - tail
      ensures !MagicAt(w[tail..], i)
    {
      assert !MagicAt(w[1..], tail - 1 + i);
    }
  }

  /**
   * What a step leaves when the bytes of a packet were dropped: the link goes on as if there had been no such packet.
   */
  ghost predicate Dropped(s: TcpState, ws: seq<seq<Byte>>, n: nat)
    requires AllWellFormed(ws)
  {
    && s.buffer == [] && s.history == FeedAll(Tcp, EMPTY, PacketsIn(ws, n))
    && DEFAULT_RECEPTION_BUFFER_SIZE <= s.capacity <= MAX_RECEPTION_BUFFER_SIZE
    && s.scheduled.Some? && DEFAULT_RECEPTION_BUFFER_SIZE <= s.scheduled.value <= s.capacity
  }

  lemma {:induction false} DroppedIsSkipping(s: TcpState, ws: seq<seq<Byte>>, n: nat)
    requires AllWellFormed(ws) && n <= |Joined(ws)| && Tail(ws, n) > 0
    requires Whole(ws, n) < |ws| && Tail(ws, n) < |ws[Whole(ws, n)]| && NoMagicIn(GapAt(ws, n))
    requires Dropped(s, ws, n)
    ensures AllWellFormed(WithoutPacket(ws, n))
    ensures Skipping(s, WithoutPacket(ws, n), Boundary(ws, n), GapAt(ws, n))
  {
    hide WellFormed, FeedAll, Joined, Whole, Boundary, PacketsOf;
    CutStream(ws, n);
    var kept, b := WithoutPacket(ws, n), Boundary(ws, n);
    SplitAt(kept, b);
  }

  /** A step that reaches byte n of the stream: the link is aligned, or has dropped a short tail. */
  lemma {:induction false} ReachedFollows(s: TcpState, s': TcpState, ws: seq<seq<Byte>>, n: nat)
    requires AllWellFormed(ws) && n <= |Joined(ws)| && Reached(s, s', ws, n)
    requires DEFAULT_RECEPTION_BUFFER_SIZE <= s.capacity
    ensures if ShortTail(ws, n) then Dropped(s', ws, n) else Aligned(s', ws, n)
  {
    hide WellFormed, FeedAll, Joined, Whole, Boundary, PacketsOf;
    SplitAt(ws, n);
  }

  // ----- One step -----

  /** The step when the loop stops at the end of what was read and has found nothing. */
  lemma {:induction false} NothingReceived(s: TcpState, bytes: seq<Byte>)
    requires Decode(Tcp, s.buffer + bytes, 0, s.history) == Stopped(s.history, |s.buffer + bytes|, 0)
    ensures Received(s, bytes) == TcpState([], s.history, s.capacity, Some(s.capacity))
  {
    hide Decode;
  }

  /** A read that ends inside the gap. */
  lemma {:induction false} StepInGap(s: TcpState, ws: seq<seq<Byte>>, n: nat, gap: seq<Byte>, bytes: seq<Byte>)
    requires AllWellFormed(ws) && Skipping(s, ws, n, gap) && |bytes| < |gap| && bytes == gap[..|bytes|]
    ensures Decode(Tcp, s.buffer + bytes, 0, s.history).Stopped?
    ensures Skipping(Received(s, bytes), ws, n, gap[|bytes|..])
  {
    hide WellFormed, Decode, HistoryFrom, Whole, Boundary;
    assert Behind(bytes, |bytes|, [], 0) by {
      assert forall i | 0 <= i < |bytes| :: MagicAt(bytes, i) ==> MagicAt(gap, i);
    }
    NothingAligned(s, ws, n);
    DecodeBehind(Tcp, bytes, |bytes|, s.history, [], 0);
    assert s.buffer + bytes == bytes;
    NothingReceived(s, bytes);
    assert forall i | 0 <= i < |gap| - |bytes| :: MagicAt(gap[|bytes|..], i) ==> MagicAt(gap, |bytes| + i);
  }

  /** Between two packets nothing is kept, and a state in which nothing was found is as good as that before. */
  lemma {:induction false} NothingAligned(s: TcpState, ws: seq<seq<Byte>>, n: nat)
    requires AllWellFormed(ws) && Aligned(s, ws, n) && Tail(ws, n) == 0
    ensures s.buffer == [] && s.history == FeedAll(Tcp, EMPTY, PacketsIn(ws, n))
    ensures s.scheduled.value >= DEFAULT_RECEPTION_BUFFER_SIZE
    ensures Aligned(TcpState([], s.history, s.capacity, Some(s.capacity)), ws, n)
  {
    hide WellFormed, FeedAll, Joined;
  }

  lemma {:induction false} BytesBehind(ws: seq<seq<Byte>>, n: nat, gap: seq<Byte>, bytes: seq<Byte>)
    requires AllWellFormed(ws) && NoMagicIn(gap) && n <= |Joined(ws)| && Tail(ws, n) == 0
    requires |gap| <= |bytes| <= |Remaining(ws, n, gap)| && bytes == Remaining(ws, n, gap)[..|bytes|]
    ensures var e := |bytes| - |gap|;
      && Next(ws, n, bytes[|gap|..]) && bytes == gap + bytes[|gap|..]
      && Behind(bytes, |gap|, ws[Whole(ws, n)..], e)
  {
    hide WellFormed, Whole, Boundary;
    var d, e := |gap|, |bytes| - |gap|;
    var rest := ws[Whole(ws, n)..];
    assert bytes == gap + Joined(ws)[n..][..e];
    assert Joined(ws)[n..][..e] == Joined(ws)[n..n + e];
    RestOfStream(ws, n);
    StartsWithMagic(rest);
    forall i | 0 <= i < d
      ensures !MagicAt(bytes, i)
    {
      assert i + 1 < d ==> !MagicAt(gap, i);
      assert i + 1 == d < |bytes| ==> bytes[i + 1] == Joined(rest)[0];
    }
  }

  lemma {:induction false} StartsWithMagic(ws: seq<seq<Byte>>)
    requires AllWellFormed(ws)
    ensures Joined(ws) != [] ==> Joined(ws)[0] == MAGIC_LOW
  {
    if ws != [] {
      assert WellFormed(ws[0]);
    }
  }

  /** The read ends behind the gap, after the magic word found there and before the end of its header. */
  predicate OverreadsBehind(gap: seq<Byte>, bytes: seq<Byte>) {
    gap != [] && |gap| + 2 <= |bytes| < |gap| + HEADER_FIELDS_SIZE
  }

  /**
   * A read that ends behind the gap, of any bytes that are enough to be searched, scheduled or not. It leads to
   * undefined behaviour if and only if it ends 2 to 75 bytes behind the gap. Otherwise the link goes on with the
   * packets behind the gap: aligned with them, or holding a header, or dropping a short tail of one of them in turn.
   */
  lemma {:induction false} StepPastGap(s: TcpState, ws: seq<seq<Byte>>, n: nat, gap: seq<Byte>, bytes: seq<Byte>)
    requires AllWellFormed(ws) && Skipping(s, ws, n, gap) && |bytes| >= HEADER_OBJECT_SIZE
    requires |gap| <= |bytes| <= |Remaining(ws, n, gap)| && bytes == Remaining(ws, n, gap)[..|bytes|]
    ensures n + |bytes| - |gap| <= |Joined(ws)|
    ensures Decode(Tcp, s.buffer + bytes, 0, s.history) == Undefined <==> OverreadsBehind(gap, bytes)
    ensures var s', e := Received(s, bytes), |bytes| - |gap|;
      !OverreadsBehind(gap, bytes) ==>
        && Decode(Tcp, s.buffer + bytes, 0, s.history).Stopped?
        && if HEADER_FIELDS_SIZE <= e < HEADER_OBJECT_SIZE then Holding(s', ws, n + e)
           else if ShortTail(ws, n + e) then Dropped(s', ws, n + e)
           else Aligned(s', ws, n + e)
  {
    hide WellFormed, Decode, HistoryFrom, MissingAt, Joined, Whole, Boundary, Received, Reached, Dropped, Holding, FeedAll, Aligned;
    var d, e := |gap|, |bytes| - |gap|;
    var next, rest := bytes[d..], ws[Whole(ws, n)..];
    NothingAligned(s, ws, n);
    AlignedBuffer(s, ws, n);
    BytesBehind(ws, n, gap, bytes);
    DecodeBehind(Tcp, bytes, d, s.history, rest, e);
    assert s.buffer + bytes == bytes;
    if e < 2 {
      NothingReceived(s, bytes);
      StayedInPlace(s, ws, n, e);
    } else if e >= HEADER_OBJECT_SIZE {
      HistoryContinuesAligned(s, ws, n, n + e);
      AlignedCapacity(s, ws, n);
      StepFrom(s, ws, n, gap, next);
      ReachedFollows(s, Received(s, bytes), ws, n + e);
    } else if e >= HEADER_FIELDS_SIZE {
      HeaderHeld(s, ws, n, gap, bytes);
    }
  }

  lemma {:induction false} AlignedCapacity(s: TcpState, ws: seq<seq<Byte>>, n: nat)
    requires AllWellFormed(ws) && Aligned(s, ws, n)
    ensures DEFAULT_RECEPTION_BUFFER_SIZE <= s.capacity <= MAX_RECEPTION_BUFFER_SIZE
  {
  }

  lemma {:induction false} HistoryContinuesAligned(s: TcpState, ws: seq<seq<Byte>>, n: nat, n': nat)
    requires AllWellFormed(ws) && Aligned(s, ws, n) && n <= n' <= |Joined(ws)|
    ensures Continues(s.history, ws, n, n')
  {
    hide WellFormed, HistoryFrom, Joined, Whole, Boundary;
    HistoryContinues(Tcp, EMPTY, ws, n, n');
  }

  /** From a packet's start, fewer bytes than it has are its tail. */
  lemma {:induction false} TailBehind(ws: seq<seq<Byte>>, n: nat, e: nat)
    requires AllWellFormed(ws) && n + e <= |Joined(ws)| && Tail(ws, n) == 0 && e < HEADER_OBJECT_SIZE
    ensures Whole(ws, n + e) == Whole(ws, n) && Boundary(ws, n + e) == n && Tail(ws, n + e) == e
    ensures e > 0 ==> Whole(ws, n) < |ws|
  {
    var rest := ws[Whole(ws, n)..];
    ReadOn(ws, n, n + e);
    assert rest != [] ==> WellFormed(rest[0]);
    RestOfStream(ws, n);
  }

  lemma {:induction false} StayedInPlace(s: TcpState, ws: seq<seq<Byte>>, n: nat, e: nat)
    requires AllWellFormed(ws) && Aligned(s, ws, n) && Tail(ws, n) == 0
    requires n + e <= |Joined(ws)| && e < HEADER_OBJECT_SIZE
    ensures var s' := TcpState([], s.history, s.capacity, Some(s.capacity));
      if e == 0 then Aligned(s', ws, n) else ShortTail(ws, n + e) && Dropped(s', ws, n + e)
  {
    hide WellFormed, Joined, Whole, Boundary, FeedAll;
    NothingAligned(s, ws, n);
    TailBehind(ws, n, e);
  }

  /** Behind the gap enough of a packet came to decode its header: what came of it is kept. */
  lemma {:induction false} HeaderHeld(s: TcpState, ws: seq<seq<Byte>>, n: nat, gap: seq<Byte>, bytes: seq<Byte>)
    requires AllWellFormed(ws) && Aligned(s, ws, n) && Tail(ws, n) == 0
    requires |gap| <= |bytes| && n + |bytes| - |gap| <= |Joined(ws)|
    requires bytes[|gap|..] == Joined(ws)[n..n + |bytes| - |gap|]
    requires HEADER_FIELDS_SIZE <= |bytes| - |gap| < HEADER_OBJECT_SIZE
    requires var rest, e := ws[Whole(ws, n)..], |bytes| - |gap|;
      && rest != [] && |rest[0]| >= HEADER_OBJECT_SIZE
      && Decode(Tcp, bytes, 0, s.history) == Stopped(Observe(s.history, HeaderOf(rest[0])), |gap|, |rest[0]| - e)
    ensures Holding(Received(s, bytes), ws, n + |bytes| - |gap|)
    ensures ShortTail(ws, n + |bytes| - |gap|)
  {
    hide WellFormed, Decode, Joined, Whole, Boundary, FeedAll, Received, HeaderOf, Observe, Aligned;
    var e := |bytes| - |gap|;
    var rest := ws[Whole(ws, n)..];
    NothingAligned(s, ws, n);
    AlignedCapacity(s, ws, n);
    TailBehind(ws, n, e);
    assert s.buffer + bytes == bytes;
    HeaderReceived(s, bytes, HeaderOf(rest[0]), |gap|, |rest[0]| - e);
  }

  lemma {:induction false} HeaderReceived(s: TcpState, bytes: seq<Byte>, header: Header, position: nat, missing: U32)
    requires s.buffer == [] && position <= |bytes| && missing > 0
    requires Decode(Tcp, bytes, 0, s.history) == Stopped(Observe(s.history, header), position, missing)
    ensures Received(s, bytes)
         == TcpState(bytes[position..], Observe(s.history, header), s.capacity, Some(Min(missing, s.capacity)))
  {
    hide Decode;
    assert s.buffer + bytes == bytes;
    ObserveNeedsNothing(s.history, header, |s.history.closed|);
  }

  // ----- From a header held -----

  lemma {:induction false} FirstSeen(ws: seq<seq<Byte>>, n: nat)
    requires AllWellFormed(ws) && HEADER_OBJECT_SIZE <= n <= |Joined(ws)|
    ensures ws != []
    ensures if PacketsIn(ws, n) == [] then SeenHeader(ws, n) == Some(FirstHeader(ws))
            else PacketsIn(ws, n)[0].header == FirstHeader(ws)
  {
    hide HeaderAt;
    SplitAt(ws, n);
    assert PacketsIn(ws, n) == [] <==> Whole(ws, n) == 0;
  }

  /** The packet whose header is held is fed later as if its header had not been seen. */
  lemma {:induction false} HeldContinues(s: TcpState, ws: seq<seq<Byte>>, n: nat, n': nat)
    requires AllWellFormed(ws) && Holding(s, ws, n) && n <= n' <= |Joined(ws)|
    requires Tail(ws, n) + (n' - n) >= HEADER_OBJECT_SIZE
    ensures Continues(s.history, ws, n, n')
  {
    hide WellFormed, FeedAll, Joined, Boundary, Observe, PacketsOf;
    var k, b := Whole(ws, n), Boundary(ws, n);
    var rest, m := ws[k..], n' - b;
    SeenContinues(ws, n, n');
    PacketsContinue(ws, n, n');
    FirstSeen(rest, m);
    var seen := Some(FirstHeader(rest));
    assert Seeing(FeedAll(Tcp, EMPTY, PacketsIn(ws, n)), seen) == s.history;
    Resume(Tcp, EMPTY, PacketsIn(ws, n), PacketsIn(rest, m), seen, SeenHeader(rest, m));
  }

  lemma {:induction false} StepFromHeld(s: TcpState, ws: seq<seq<Byte>>, n: nat, bytes: seq<Byte>)
    requires AllWellFormed(ws) && Holding(s, ws, n) && s.scheduled == Some(|bytes|) && Next(ws, n, bytes)
    ensures Decode(Tcp, s.buffer + bytes, 0, s.history).Stopped?
    ensures var s', n' := Received(s, bytes), n + |bytes|;
      if ShortTail(ws, n') then Dropped(s', ws, n') else Aligned(s', ws, n')
  {
    hide HeaderAt, Decode, FeedAll, Joined, Whole, Boundary, Received, Reached, Dropped, Aligned;
    assert WellFormed(ws[Whole(ws, n)]);
    hide WellFormed;
    HeldContinues(s, ws, n, n + |bytes|);
    assert [] + bytes == bytes;
    StepFrom(s, ws, n, [], bytes);
    ReachedFollows(s, Received(s, bytes), ws, n + |bytes|);
  }

  lemma {:induction false} StepFromAligned(s: TcpState, ws: seq<seq<Byte>>, n: nat, bytes: seq<Byte>)
    requires AllWellFormed(ws) && Aligned(s, ws, n) && Next(ws, n, bytes)
    ensures Decode(Tcp, s.buffer + bytes, 0, s.history).Stopped?
    ensures var s', n' := Received(s, bytes), n + |bytes|;
      if ShortTail(ws, n') then Dropped(s', ws, n') else Aligned(s', ws, n')
  {
    hide WellFormed, Decode, FeedAll, Joined, Received, Reached, Dropped, Aligned;
    AlignedCapacity(s, ws, n);
    StepOnStream(s, ws, n, bytes);
    ReachedFollows(s, Received(s, bytes), ws, n + |bytes|);
  }

  /** The bytes are those that come next. */
  predicate Comes(ws: seq<seq<Byte>>, n: nat, gap: seq<Byte>, bytes: seq<Byte>) {
    n <= |Joined(ws)| && bytes <= Remaining(ws, n, gap)
  }

  /**
   * In every state of a link that still reads, a scheduled read leads to undefined behaviour if and only if it ends 2
   * to 75 bytes behind a gap.
   */
  lemma {:induction false} UndefinedIffOverreads(
      s: TcpState, ws: seq<seq<Byte>>, n: nat, gap: seq<Byte>, bytes: seq<Byte>)
    requires AllWellFormed(ws) && Follows(s, ws, n, gap) && Comes(ws, n, gap, bytes)
    requires s.scheduled == Some(|bytes|)
    ensures Decode(Tcp, s.buffer + bytes, 0, s.history) == Undefined <==> OverreadsBehind(gap, bytes)
    ensures !OverreadsBehind(gap, bytes) ==> Decode(Tcp, s.buffer + bytes, 0, s.history).Stopped?
    ensures gap == [] ==> Next(ws, n, bytes)
  {
    hide WellFormed, Decode, Joined, Received, Dropped, Aligned, Holding;
    if gap == [] {
      WithoutGap(ws, n, bytes);
      if Aligned(s, ws, n) {
        StepFromAligned(s, ws, n, bytes);
      } else {
        StepFromHeld(s, ws, n, bytes);
      }
    } else if |bytes| < |gap| {
      assert bytes == gap[..|bytes|];
      StepInGap(s, ws, n, gap, bytes);
    } else {
      NothingAligned(s, ws, n);
      StepPastGap(s, ws, n, gap, bytes);
    }
  }

  lemma {:induction false} WithoutGap(ws: seq<seq<Byte>>, n: nat, bytes: seq<Byte>)
    requires Comes(ws, n, [], bytes)
    ensures Next(ws, n, bytes)
  {
    hide Joined;
    assert Remaining(ws, n, []) == Joined(ws)[n..];
  }

  /** The read ends where the header of a packet behind the gap can be decoded, but not yet searched for. */
  predicate HoldsBehind(gap: seq<Byte>, bytes: seq<Byte>) {
    gap != [] && |gap| + HEADER_FIELDS_SIZE <= |bytes| < |gap| + HEADER_OBJECT_SIZE
  }

  /** Byte n is inside a packet, and no packet seems to start in what is still to come of it. */
  predicate CutsPlainly(ws: seq<seq<Byte>>, n: nat) {
    Whole(ws, n) < |ws| && Tail(ws, n) <= |ws[Whole(ws, n)]| && NoMagicIn(GapAt(ws, n))
  }

  /** The link goes on without the packet that byte n is inside of. */
  ghost predicate FollowsWithout(s: TcpState, ws: seq<seq<Byte>>, n: nat) {
    && Whole(ws, n) < |ws| && Tail(ws, n) < |ws[Whole(ws, n)]|
    && AllWellFormed(WithoutPacket(ws, n))
    && Follows(s, WithoutPacket(ws, n), Boundary(ws, n), GapAt(ws, n))
  }

  /** A read that reaches the end of the gap, if there is one: a short tail is dropped, unless its header is held. */
  lemma {:induction false} StepReaches(s: TcpState, ws: seq<seq<Byte>>, n: nat, gap: seq<Byte>, bytes: seq<Byte>)
    requires AllWellFormed(ws) && Follows(s, ws, n, gap) && Comes(ws, n, gap, bytes)
    requires s.scheduled == Some(|bytes|) && !OverreadsBehind(gap, bytes) && |gap| <= |bytes|
    ensures var s', end := Received(s, bytes), n + |bytes| - |gap|;
      && end <= |Joined(ws)|
      && if ShortTail(ws, end) && !HoldsBehind(gap, bytes) then Dropped(s', ws, end)
         else Aligned(s', ws, end) || Holding(s', ws, end)
  {
    hide WellFormed, Decode, Joined, Received, Dropped, Aligned, Holding, Whole, Boundary;
    if gap != [] {
      NothingAligned(s, ws, n);
      StepPastGap(s, ws, n, gap, bytes);
    } else {
      WithoutGap(ws, n, bytes);
      if Aligned(s, ws, n) {
        StepFromAligned(s, ws, n, bytes);
      } else {
        StepFromHeld(s, ws, n, bytes);
      }
    }
  }

  /**
   * Otherwise it leads to a state of the same kind: of the same stream, or, when it drops a short tail and no packet
   * seems to start in what is still to come of that packet, of the stream without that packet.
   */
  lemma {:induction false} StepFollows(s: TcpState, ws: seq<seq<Byte>>, n: nat, gap: seq<Byte>, bytes: seq<Byte>)
    requires AllWellFormed(ws) && Follows(s, ws, n, gap) && Comes(ws, n, gap, bytes)
    requires s.scheduled == Some(|bytes|) && !OverreadsBehind(gap, bytes)
    ensures var s' := Received(s, bytes);
      if |bytes| < |gap| then Follows(s', ws, n, gap[|bytes|..])
      else
        var end := n + |bytes| - |gap|;
        if ShortTail(ws, end) && !HoldsBehind(gap, bytes) then
          CutsPlainly(ws, end) ==> FollowsWithout(s', ws, end)
        else Follows(s', ws, end, [])
  {
    hide WellFormed, Joined, Received, Dropped, Aligned, Holding, Whole, Boundary, OverreadsBehind, NoMagicIn;
    var end := n + |bytes| - |gap|;
    if |bytes| < |gap| {
      assert bytes == gap[..|bytes|];
      StepInGap(s, ws, n, gap, bytes);
    } else {
      StepReaches(s, ws, n, gap, bytes);
      if ShortTail(ws, end) && !HoldsBehind(gap, bytes) {
        CutStream(ws, end);
        if CutsPlainly(ws, end) {
          DroppedIsSkipping(Received(s, bytes), ws, end);
        }
      }
    }
  }

  lemma {:induction false} StepKeeps(
      s: TcpState, ws: seq<seq<Byte>>, n: nat, gap: seq<Byte>, bytes: seq<Byte>, end: nat)
    requires AllWellFormed(ws) && Follows(s, ws, n, gap) && Comes(ws, n, gap, bytes)
    requires s.scheduled == Some(|bytes|) && !OverreadsBehind(gap, bytes) && end == n + |bytes| - |gap| >= n
    requires !ShortTail(ws, end) || HoldsBehind(gap, bytes)
    ensures Follows(Received(s, bytes), ws, end, [])
  {
    hide WellFormed, Received, Follows, OverreadsBehind, HoldsBehind, ShortTail, Comes, FollowsWithout;
    StepFollows(s, ws, n, gap, bytes);
  }

  lemma {:induction false} StepDrops(
      s: TcpState, ws: seq<seq<Byte>>, n: nat, gap: seq<Byte>, bytes: seq<Byte>, end: nat)
    requires AllWellFormed(ws) && Follows(s, ws, n, gap) && Comes(ws, n, gap, bytes)
    requires s.scheduled == Some(|bytes|) && !OverreadsBehind(gap, bytes) && end == n + |bytes| - |gap| >= n
    requires ShortTail(ws, end) && !HoldsBehind(gap, bytes) && CutsPlainly(ws, end)
    ensures FollowsWithout(Received(s, bytes), ws, end)
  {
    hide WellFormed, Received, Follows, OverreadsBehind, HoldsBehind, ShortTail, Comes, CutsPlainly, FollowsWithout;
    StepFollows(s, ws, n, gap, bytes);
  }

  /** Without a gap, the packet that a scheduled read ends shortly into is not the one it starts in. */
  lemma {:induction false} ShortTailIsOfALaterPacket(s: TcpState, ws: seq<seq<Byte>>, n: nat)
    requires AllWellFormed(ws) && Follows(s, ws, n, []) && s.scheduled.Some?
    requires n + s.scheduled.value <= |Joined(ws)| && ShortTail(ws, n + s.scheduled.value)
    ensures Whole(ws, n + s.scheduled.value) > Whole(ws, n)
  {
    hide HeaderAt, HistoryFrom, FeedAll, Joined;
    ReadOn(ws, n, n + s.scheduled.value);
    if Tail(ws, n) == 0 {
      NothingAligned(s, ws, n);
    }
  }

  // ----- A read past the end -----

  lemma {:induction false} LargePacketIsPlain()
    ensures NoMagicIn(LargePacket()[1..])
  {
    assert forall i | 1 <= i < |LargePacket()| :: LargePacket()[i] != MAGIC_LOW;
    hide LargePacket, LargePacketByte;
    assert forall i | 0 <= i < |LargePacket()[1..]| :: LargePacket()[1..][i] == LargePacket()[i + 1];
  }

  /**
   * Three packets of 4076 bytes, and the first two scheduled reads. The second ends 40 bytes behind the packet cut
   * off by the first: the magic word of the third packet is found and 76 bytes are read where 40 are left.
   */
  lemma {:induction false} SecondReadIsUndefined() returns (ws: seq<seq<Byte>>, first: seq<Byte>, second: seq<Byte>)
    ensures AllWellFormed(ws) && AllPlain(ws) && Delivers(ws, 0, [first, second])
    ensures Scheduled(INITIAL, [first, second])
    ensures var s := Received(INITIAL, first);
      Decode(Tcp, s.buffer + second, 0, s.history) == Undefined
  {
    var w := LargePacket();
    LargePacketIsWellFormed();
    LargePacketIsPlain();
    hide LargePacket, WellFormed, NoMagicIn, Received, Decode, Aligned, Holding, MissingAt, HistoryFrom;
    ws := [w, w, w];
    LengthOfThree(w);
    first, second := Joined(ws)[..4096], Joined(ws)[4096..8192];
    JoinedTwo(first, second);
    StartsAligned(ws);
    assert INITIAL.scheduled == Some(|first|);
    assert Boundary(ws, 4096) == 4076 && Whole(ws, 4096) == 1;
    UndefinedAfterTail(ws, first, second);
    assert [first, second][1..] == [second] && [second][1..] == [];
    assert Scheduled(Received(Received(INITIAL, first), second), []);
    assert Scheduled(Received(INITIAL, first), [second]);
  }

  lemma {:induction false} LengthOfThree(w: seq<Byte>)
    ensures |Joined([w, w, w])| == 3 * |w|
  {
    JoinedAppend([w], [w, w]);
    JoinedAppend([w], [w]);
    JoinedOne(w);
    assert [w, w, w] == [w] + [w, w] && [w, w] == [w] + [w];
  }

  lemma {:induction false} JoinedTwo(a: seq<Byte>, b: seq<Byte>)
    ensures Joined([a, b]) == a + b
  {
    JoinedAppend([a], [b]);
    JoinedOne(a);
    JoinedOne(b);
    assert [a, b] == [a] + [b];
  }

  lemma {:induction false} FirstReadDrops(ws: seq<seq<Byte>>, first: seq<Byte>)
    requires AllWellFormed(ws) && Aligned(INITIAL, ws, 0) && Next(ws, 0, first)
    requires ShortTail(ws, |first|)
    ensures Dropped(Received(INITIAL, first), ws, |first|)
    ensures Received(INITIAL, first).scheduled == Some(DEFAULT_RECEPTION_BUFFER_SIZE)
  {
    hide WellFormed, Joined, Received, Decode, Aligned, Whole, Boundary, FeedAll, HistoryFrom;
    StepOnStream(INITIAL, ws, 0, first);
    ReachedFollows(INITIAL, Received(INITIAL, first), ws, |first|);
  }

  lemma {:induction false} UndefinedAfterTail(ws: seq<seq<Byte>>, first: seq<Byte>, second: seq<Byte>)
    requires AllWellFormed(ws) && AllPlain(ws) && Aligned(INITIAL, ws, 0)
    requires |Joined(ws)| == 12228 && |first| == |second| == 4096
    requires first == Joined(ws)[..4096] && second == Joined(ws)[4096..8192]
    requires Whole(ws, 4096) == 1 < |ws| && Boundary(ws, 4096) == 4076 && |ws[1]| == 4076
    ensures var s := Received(INITIAL, first);
      s.scheduled == Some(4096) && Decode(Tcp, s.buffer + second, 0, s.history) == Undefined
  {
    hide WellFormed, Joined, Received, Decode, Aligned, Holding, Reached, Whole, Boundary, AllPlain, FeedAll, HistoryFrom;
    var s := Received(INITIAL, first);
    FirstReadDrops(ws, first);
    CutStream(ws, 4096);
    PlainGap(ws, 4096);
    DroppedIsSkipping(s, ws, 4096);
    hide Dropped;
    assert second == Joined(ws)[4096..][..4096];
    UndefinedIffOverreads(s, WithoutPacket(ws, 4096), 4076, GapAt(ws, 4096), second);
  }
}
