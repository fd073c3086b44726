/**
 * Streams of well-formed packets: which packets are all there after n bytes, what decoding so many bytes comes to, that
 * decoding on from what was kept comes to decoding everything at once, and what a gap before a stream changes.
 */
module Streams {
  import opened LittleEndian
  import opened Options
  import opened Sequences
  import opened Data
  import opened PacketExtraction
  import opened ScanAssembly
  import opened StreamDecoding

  // ----- The packets in the first n bytes of a stream -----

  /** How many packets of the stream are all there. */
  function Whole(ws: seq<seq<Byte>>, n: nat): (k: nat)
    ensures k <= |ws|
  {
    if ws == [] || n < |ws[0]| then 0 else 1 + Whole(ws[1..], n - |ws[0]|)
  }

  /** How many bytes those packets have. */
  function Boundary(ws: seq<seq<Byte>>, n: nat): (b: nat)
    ensures b <= n
  {
    if ws == [] || n < |ws[0]| then 0 else |ws[0]| + Boundary(ws[1..], n - |ws[0]|)
  }

  /** How many bytes of the next packet have come. */
  function Tail(ws: seq<seq<Byte>>, n: nat): nat {
    n - Boundary(ws, n)
  }

  function Unread(ws: seq<seq<Byte>>, n: nat): seq<Byte>
    requires n <= |Joined(ws)|
  {
    Joined(ws)[Boundary(ws, n)..n]
  }

  /** Something of the next packet has come, but less than the size searched for. */
  predicate ShortTail(ws: seq<seq<Byte>>, n: nat) {
    0 < Tail(ws, n) < HEADER_OBJECT_SIZE
  }

  lemma {:induction false} SplitAt(ws: seq<seq<Byte>>, n: nat)
    requires n <= |Joined(ws)|
    ensures var k := Whole(ws, n);
      && |Joined(ws[..k])| == Boundary(ws, n)
      && Joined(ws)[..Boundary(ws, n)] == Joined(ws[..k])
      && (k < |ws| ==> Tail(ws, n) < |ws[k]| && Unread(ws, n) == ws[k][..Tail(ws, n)])
      && (k == |ws| ==> Tail(ws, n) == 0)
  {
    if ws != [] {
      var w, rest := ws[0], ws[1..];
      var all := Joined(ws);
      assert all == w + Joined(rest);
      if n < |w| {
        assert ws[..0] == [];
        assert all[0..n] == w[..n];
      } else {
        SplitAt(rest, n - |w|);
        var k := Whole(rest, n - |w|);
        var b := Boundary(rest, n - |w|);
        assert ws[..k + 1] == [w] + rest[..k];
        SliceBehind(w, Joined(rest), b, n - |w|);
      }
    }
  }

  /** Reading on: the packets counted so far are counted again, and the others from the boundary on. */
  lemma {:induction false} ReadOn(ws: seq<seq<Byte>>, n: nat, n': nat)
    requires n <= n'
    ensures var k, b := Whole(ws, n), Boundary(ws, n);
      Whole(ws, n') == k + Whole(ws[k..], n' - b) && Boundary(ws, n') == b + Boundary(ws[k..], n' - b)
  {
    if ws != [] && n >= |ws[0]| {
      ReadOn(ws[1..], n - |ws[0]|, n' - |ws[0]|);
      assert ws[1..][Whole(ws, n) - 1..] == ws[Whole(ws, n)..];
    } else {
      assert ws[0..] == ws;
    }
  }

  lemma {:induction false} RestOfStream(ws: seq<seq<Byte>>, n: nat)
    requires n <= |Joined(ws)|
    ensures Joined(ws)[Boundary(ws, n)..] == Joined(ws[Whole(ws, n)..])
  {
    var k := Whole(ws, n);
    SplitAt(ws, n);
    JoinedAppend(ws[..k], ws[k..]);
    assert ws == ws[..k] + ws[k..];
  }

  // ----- One step over part of a stream -----

  ghost function PacketsIn(ws: seq<seq<Byte>>, n: nat): seq<Packet>
    requires AllWellFormed(ws)
  {
    PacketsOf(ws[..Whole(ws, n)])
  }

  /** The header of the packet begun, once enough of it has come. */
  ghost function SeenHeader(ws: seq<seq<Byte>>, n: nat): Option<Header>
    requires AllWellFormed(ws) && n <= |Joined(ws)|
  {
    if Tail(ws, n) < HEADER_OBJECT_SIZE then None
    else
      SplitAt(ws, n);
      Some(HeaderOf(ws[Whole(ws, n)]))
  }

  function Seeing(h: History, header: Option<Header>): History {
    if header.Some? then Observe(h, header.value) else h
  }

  /** What the whole-stream decoder has made of the packets all there, the header of a next one being seen or not. */
  ghost function HistoryFrom(t: Transport, h: History, ws: seq<seq<Byte>>, n: nat): History
    requires AllWellFormed(ws) && n <= |Joined(ws)|
  {
    Seeing(FeedAll(t, h, PacketsIn(ws, n)), SeenHeader(ws, n))
  }

  /** What the packet begun still lacks, once its header is there. */
  ghost function MissingAt(ws: seq<seq<Byte>>, n: nat): U32
    requires AllWellFormed(ws) && n <= |Joined(ws)|
  {
    SplitAt(ws, n);
    if Tail(ws, n) < HEADER_OBJECT_SIZE then 0
    else
      assert WellFormed(ws[Whole(ws, n)]);
      |ws[Whole(ws, n)]| - Tail(ws, n)
  }

  /** Where the loop stops in a range that holds the first n bytes of a stream from a position on. */
  ghost function StoppedAt(t: Transport, position: nat, h: History, ws: seq<seq<Byte>>, n: nat): Decoding
    requires AllWellFormed(ws) && n <= |Joined(ws)|
  {
    Stopped(HistoryFrom(t, h, ws, n), position + if ShortTail(ws, n) then n else Boundary(ws, n), MissingAt(ws, n))
  }

  /** The loop over the first n bytes of a stream of well-formed packets, from any position and any history. */
  lemma {:induction false} DecodeStream(
      t: Transport, s: seq<Byte>, position: nat, h: History, ws: seq<seq<Byte>>, n: nat)
    requires AllWellFormed(ws) && n <= |Joined(ws)|
    requires position + n == |s| && s[position..] == Joined(ws)[..n]
    ensures Decode(t, s, position, h) == StoppedAt(t, position, h, ws, n)
  {
    hide Decode, WellFormed, Feed, FeedAll, Observe, HeaderAt;
    var k, b := Whole(ws, n), Boundary(ws, n);
    SplitAt(ws, n);
    assert s[position..][..b] == Joined(ws[..k]);
    DecodePackets(t, s, position, h, ws[..k]);
    var after := FeedAll(t, h, PacketsIn(ws, n));
    if b < n {
      SuffixOfSuffix(s, position, b);
      DecodeTail(t, s, position + b, after, ws[k]);
    } else {
      DecodeStep(t, s, |s|, after);
      NothingInNothing(s);
    }
  }

  lemma {:induction false} NothingInNothing(s: seq<Byte>)
    ensures ExtractFrom(s, |s|).NothingFound?
  {
  }

  // ----- Decoding on -----

  lemma {:induction false} FeedAllObserved(t: Transport, h: History, ps: seq<Packet>)
    requires ps != []
    ensures FeedAll(t, Observe(h, ps[0].header), ps) == FeedAll(t, h, ps)
  {
    hide Complete;
    var p := ps[0];
    assert ps == [p] + ps[1..];
    FeedFirst(t, h, p, ps[1..]);
    FeedFirst(t, Observe(h, p.header), p, ps[1..]);
    EarlyClearCommutes(t, h, p);
  }

  lemma {:induction false} ObserveTwice(h: History, header: Header)
    ensures Observe(Observe(h, header), header) == Observe(h, header)
  {
  }

  lemma {:induction false} PacketsContinue(ws: seq<seq<Byte>>, n: nat, n': nat)
    requires AllWellFormed(ws) && n <= n'
    ensures var k, b := Whole(ws, n), Boundary(ws, n);
      PacketsIn(ws, n') == PacketsIn(ws, n) + PacketsIn(ws[k..], n' - b)
  {
    hide WellFormed, Whole, Boundary, PacketsOf;
    var k, b := Whole(ws, n), Boundary(ws, n);
    ReadOn(ws, n, n');
    var k' := Whole(ws[k..], n' - b);
    assert ws[..k + k'] == ws[..k] + ws[k..][..k'];
    PacketsOfAppend(ws[..k], ws[k..][..k']);
  }

  /** What is seen of the packet begun is seen again, or it is the first of the packets that are now all there. */
  lemma {:induction false} SeenContinues(ws: seq<seq<Byte>>, n: nat, n': nat)
    requires AllWellFormed(ws) && n <= n' <= |Joined(ws)|
    ensures var rest, m := ws[Whole(ws, n)..], n' - Boundary(ws, n);
      && m <= |Joined(rest)| && SeenHeader(rest, m) == SeenHeader(ws, n')
      && var seen, more := SeenHeader(ws, n), PacketsIn(rest, m);
         seen.Some? ==> if more == [] then SeenHeader(ws, n') == seen else more[0].header == seen.value
  {
    hide WellFormed, HeaderAt, Joined;
    RestOfStream(ws, n);
    ReadOn(ws, n, n');
    SplitAt(ws, n');
    SplitAt(ws, n);
    SplitAt(ws[Whole(ws, n)..], n' - Boundary(ws, n));
  }

  lemma {:induction false} Resume(
      t: Transport, h: History, before: seq<Packet>, more: seq<Packet>, seen: Option<Header>, next: Option<Header>)
    requires seen.Some? ==> if more == [] then next == seen else more[0].header == seen.value
    ensures Seeing(FeedAll(t, Seeing(FeedAll(t, h, before), seen), more), next)
         == Seeing(FeedAll(t, h, before + more), next)
  {
    hide Feed;
    var f := FeedAll(t, h, before);
    FeedAllAppend(t, h, before, more);
    if seen.Some? {
      if more == [] {
        FeedAllNone(t, Observe(f, seen.value));
        FeedAllNone(t, f);
        ObserveTwice(f, seen.value);
      } else {
        FeedAllObserved(t, f, more);
      }
    }
  }

  /**
   * Decoding on from what was kept gives the history of decoding everything at once. In particular the factory may
   * already have been emptied for a packet of which only the header had come: feeding it later comes to the same.
   */
  lemma {:induction false} HistoryContinues(t: Transport, h: History, ws: seq<seq<Byte>>, n: nat, n': nat)
    requires AllWellFormed(ws) && n <= n' <= |Joined(ws)|
    ensures var k, b := Whole(ws, n), Boundary(ws, n);
      n' - b <= |Joined(ws[k..])| &&
      HistoryFrom(t, HistoryFrom(t, h, ws, n), ws[k..], n' - b) == HistoryFrom(t, h, ws, n')
  {
    hide WellFormed, FeedAll, Seeing, SeenHeader, PacketsIn, Joined, Whole, Boundary;
    SeenContinues(ws, n, n');
    PacketsContinue(ws, n, n');
    var rest, m := ws[Whole(ws, n)..], n' - Boundary(ws, n);
    Resume(t, h, PacketsIn(ws, n), PacketsIn(rest, m), SeenHeader(ws, n), SeenHeader(ws, n'));
  }

  lemma {:induction false} FeedAllNone(t: Transport, h: History)
    ensures FeedAll(t, h, []) == h
  {
  }

  lemma {:induction false} SameTail(ws: seq<seq<Byte>>, n: nat, n': nat)
    requires AllWellFormed(ws) && n <= n' <= |Joined(ws)|
    ensures var rest, m := ws[Whole(ws, n)..], n' - Boundary(ws, n);
      && m <= |Joined(rest)|
      && Joined(rest)[..m] == Joined(ws)[Boundary(ws, n)..n']
      && Tail(rest, m) == Tail(ws, n') && MissingAt(rest, m) == MissingAt(ws, n')
      && Boundary(ws, n) + Boundary(rest, m) == Boundary(ws, n')
  {
    hide WellFormed;
    RestOfStream(ws, n);
    ReadOn(ws, n, n');
    SplitAt(ws, n');
    SplitAt(ws[Whole(ws, n)..], n' - Boundary(ws, n));
  }

  // ----- Reads -----

  /** The bytes are the next ones of the stream. */
  predicate Next(ws: seq<seq<Byte>>, n: nat, bytes: seq<Byte>) {
    n + |bytes| <= |Joined(ws)| && bytes == Joined(ws)[n..n + |bytes|]
  }

  /** The reads deliver the stream from its byte n on. */
  predicate Delivers(ws: seq<seq<Byte>>, n: nat, chunks: seq<seq<Byte>>) {
    var length := |Joined(chunks)|;
    n + length <= |Joined(ws)| && Joined(chunks) == Joined(ws)[n..n + length]
  }

  predicate NoShortTails(ws: seq<seq<Byte>>, n: nat, chunks: seq<seq<Byte>>)
    decreases |chunks|
  {
    !ShortTail(ws, n) && (chunks == [] || NoShortTails(ws, n + |chunks[0]|, chunks[1..]))
  }

  lemma {:induction false} FirstRead(ws: seq<seq<Byte>>, n: nat, chunks: seq<seq<Byte>>)
    requires chunks != [] && Delivers(ws, n, chunks)
    ensures Next(ws, n, chunks[0])
    ensures Delivers(ws, n + |chunks[0]|, chunks[1..])
    ensures |Joined(chunks)| == |chunks[0]| + |Joined(chunks[1..])|
  {
    var all := Joined(ws);
    assert all[n..n + |Joined(chunks)|] == Joined(chunks);
    FirstOfJoined(all, n, chunks);
  }

  // ----- A packet of another type -----

  /** At this position stands a packet that is all there by its sizes, of none of the three types. */
  predicate OtherTypeAt(s: seq<Byte>, position: nat) {
    && position + HEADER_OBJECT_SIZE <= |s| && MagicAt(s, position)
    && var h := HeaderAt(s, position);
       h.headerSize <= h.packetSize && position + h.packetSize <= |s| && h.packetType !in {0x41, 0x42, 0x43}
  }

  /** The packets before it are fed, its header may still empty the factory, and the loop throws. */
  lemma {:induction false} DecodeOtherType(t: Transport, s: seq<Byte>, h: History, ws: seq<seq<Byte>>)
    requires AllWellFormed(ws) && Joined(ws) <= s && OtherTypeAt(s, |Joined(ws)|)
    ensures Decode(t, s, 0, h)
         == Threw(Observe(FeedAll(t, h, PacketsOf(ws)), HeaderAt(s, |Joined(ws)|)))
  {
    hide Decode, WellFormed, FeedAll, PacketsOf, HeaderAt, Joined, ExtractPayload;
    var b := |Joined(ws)|;
    assert s[0..0 + b] == Joined(ws);
    DecodePackets(t, s, 0, h, ws);
    MagicAtOnce(s, b);
    UnsupportedIffOtherType(s, b, HeaderAt(s, b));
    var after := FeedAll(t, h, PacketsOf(ws));
    DecodeStep(t, s, b, after);
    UnsupportedHeader(s, b, HeaderAt(s, b));
  }

  lemma {:induction false} UnsupportedHeader(s: seq<Byte>, start: nat, h: Header)
    requires ExtractPayload(s, start, h).Unsupported?
    ensures ExtractPayload(s, start, h) == Unsupported(h)
  {
  }

  // ----- A stream behind a gap -----

  /** Nothing is found: the range is too short to be searched, or ends before the magic word behind the gap. */
  predicate Overlooked(length: nat, e: nat) {
    length < HEADER_OBJECT_SIZE || e < 2
  }

  /** The magic word behind the gap is found, and its header is not all there. */
  predicate Overreads(length: nat, e: nat) {
    length >= HEADER_OBJECT_SIZE && 2 <= e < HEADER_FIELDS_SIZE
  }

  ghost predicate Behind(s: seq<Byte>, d: nat, ws: seq<seq<Byte>>, e: nat) {
    && AllWellFormed(ws) && e <= |Joined(ws)|
    && |s| == d + e && s[d..] == Joined(ws)[..e]
    && forall i | 0 <= i < d :: !MagicAt(s, i)
  }

  lemma {:induction false} FirstBehind(s: seq<Byte>, d: nat, ws: seq<seq<Byte>>, e: nat)
    requires Behind(s, d, ws, e) && e >= 2
    ensures ws != [] && MagicAt(ws[0], 0) && |ws[0]| >= HEADER_OBJECT_SIZE
    ensures e <= |ws[0]| ==> s[d..d + e] == ws[0][0..e]
    ensures FirstMagic(s, 0) == FirstMagic(s, d) == Some(d)
  {
    hide HeaderAt, Consistent;
    assert ws != [];
    assert WellFormed(ws[0]);
    assert Joined(ws) == ws[0] + Joined(ws[1..]);
    assert s[d] == s[d..][0] && s[d + 1] == s[d..][1];
    assert e <= |ws[0]| ==> s[d..d + e] == s[d..][..e] == ws[0][0..e];
    MagicAtOnce(s, d);
    FirstMagicSkips(s, 0, d);
  }

  lemma {:induction false} NothingBehind(s: seq<Byte>, d: nat, ws: seq<seq<Byte>>, e: nat)
    requires Behind(s, d, ws, e) && Overlooked(|s|, e)
    ensures ExtractFrom(s, 0).NothingFound?
  {
    hide HeaderAt, ExtractPayload;
    if |s| >= HEADER_OBJECT_SIZE {
      FirstMagicSkips(s, 0, d);
    }
  }

  lemma {:induction false} PartBehind(s: seq<Byte>, d: nat, ws: seq<seq<Byte>>, e: nat)
    requires Behind(s, d, ws, e) && |s| >= HEADER_OBJECT_SIZE && 2 <= e < HEADER_OBJECT_SIZE
    ensures ws != [] && |ws[0]| >= HEADER_OBJECT_SIZE
    ensures ExtractFrom(s, 0) ==
      if e < HEADER_FIELDS_SIZE then OutOfRange else Incomplete(d, HeaderOf(ws[0]), |ws[0]| - e)
  {
    hide HeaderAt, ExtractPayload;
    FirstBehind(s, d, ws, e);
    if e >= HEADER_FIELDS_SIZE {
      StartsLike(s, d, ws[0], e);
      assert WellFormed(ws[0]);
      PayloadOfPart(s, d, HeaderOf(ws[0]), |ws[0]|);
    }
  }

  /**
   * The loop over a range that starts in a gap, for any number of bytes behind the gap. It reads past the range exactly
   * when the range is long enough to be searched and ends 2 to 75 bytes behind the gap.
   */
  lemma {:induction false} DecodeBehind(t: Transport, s: seq<Byte>, d: nat, h: History, ws: seq<seq<Byte>>, e: nat)
    requires Behind(s, d, ws, e)
    ensures Overlooked(|s|, e) ==> Decode(t, s, 0, h) == Stopped(h, |s|, 0)
    ensures Decode(t, s, 0, h) == Undefined <==> Overreads(|s|, e)
    ensures !Overlooked(|s|, e) && HEADER_FIELDS_SIZE <= e < HEADER_OBJECT_SIZE ==>
      && ws != [] && |ws[0]| >= HEADER_OBJECT_SIZE
      && Decode(t, s, 0, h) == Stopped(Observe(h, HeaderOf(ws[0])), d, |ws[0]| - e)
    ensures e >= HEADER_OBJECT_SIZE ==>
      Decode(t, s, 0, h) == Decode(t, s, d, h) == StoppedAt(t, d, h, ws, e)
  {
    hide Decode, ExtractFrom, HistoryFrom, MissingAt, HeaderOf, Observe;
    DecodeStep(t, s, 0, h);
    if Overlooked(|s|, e) {
      NothingBehind(s, d, ws, e);
    } else if e < HEADER_OBJECT_SIZE {
      PartBehind(s, d, ws, e);
    } else {
      PrefixIsSkipped(t, s, d, h);
      DecodeStream(t, s, d, h, ws, e);
    }
  }
}
