/**
 * Which packets of a stream the TCP link loses under its own schedule of reads, and when a read is undefined, in
 * terms of where the reads end and nothing else.
 */
module TcpLosses {
  import opened LittleEndian
  import opened Options
  import opened Sequences
  import opened Data
  import opened PacketExtraction
  import opened ScanAssembly
  import opened StreamDecoding
  import opened Streams
  import opened TcpLinks
  import opened TcpRuns
  import opened TcpRecovery

  /** Where a packet starts in the stream. */
  function Start(ws: seq<seq<Byte>>, k: nat): nat
    requires k <= |ws|
  {
    |Joined(ws[..k])|
  }

  /** Where the reads end, after the first n bytes. */
  function Ends(n: nat, chunks: seq<seq<Byte>>): (ends: seq<nat>)
    ensures |ends| == |chunks|
    decreases |chunks|
  {
    if chunks == [] then [] else [n + |chunks[0]|] + Ends(n + |chunks[0]|, chunks[1..])
  }

  /**
   * A packet is lost when a read ends 1 to 79 bytes into it. Only if the packet before it was lost is it enough to have
   * 76 of them: these are held.
   */
  ghost predicate Lost(ws: seq<seq<Byte>>, ends: seq<nat>, k: nat)
    requires k < |ws|
    decreases k
  {
    exists j | 0 <= j < |ends| ::
      && 0 < ends[j] - Start(ws, k) < HEADER_OBJECT_SIZE
      && (ends[j] - Start(ws, k) < HEADER_FIELDS_SIZE || k == 0 || !Lost(ws, ends, k - 1))
  }

  /** Of the first k packets, those that are not lost. */
  ghost function Spared(ws: seq<seq<Byte>>, ends: seq<nat>, k: nat): (kept: seq<seq<Byte>>)
    requires k <= |ws|
    ensures AllWellFormed(ws) ==> AllWellFormed(kept)
  {
    if k == 0 then [] else Spared(ws, ends, k - 1) + if Lost(ws, ends, k - 1) then [] else [ws[k - 1]]
  }

  /** Byte n of the stream is inside a packet that is lost. */
  ghost predicate InGap(ws: seq<seq<Byte>>, ends: seq<nat>, n: nat) {
    Tail(ws, n) > 0 && Whole(ws, n) < |ws| && Lost(ws, ends, Whole(ws, n))
  }

  /** The next read ends behind the lost packet that byte n is inside of, in the header of the packet after it. */
  ghost predicate EndsInHeader(ws: seq<seq<Byte>>, ends: seq<nat>, n: nat, end: nat) {
    InGap(ws, ends, n) && 2 <= end - Start(ws, Whole(ws, n) + 1) < HEADER_FIELDS_SIZE
  }

  /** No packet seems to start in what comes of a packet after a read has ended 1 to 79 bytes into it. */
  predicate PlainBehind(ws: seq<seq<Byte>>, ends: seq<nat>) {
    forall j, k | 0 <= j < |ends| && 0 <= k < |ws| ::
      0 < ends[j] - Start(ws, k) < HEADER_OBJECT_SIZE && ends[j] - Start(ws, k) <= |ws[k]| ==>
        NoMagicIn(ws[k][ends[j] - Start(ws, k)..])
  }

  // ----- Where packets start -----

  lemma {:induction false} StartOfNext(ws: seq<seq<Byte>>, k: nat)
    requires k < |ws|
    ensures Start(ws, k + 1) == Start(ws, k) + |ws[k]|
  {
    JoinedAppend(ws[..k], [ws[k]]);
    JoinedOne(ws[k]);
    assert ws[..k + 1] == ws[..k] + [ws[k]];
  }

  lemma {:induction false} StartsAscend(ws: seq<seq<Byte>>, i: nat, j: nat)
    requires i < j <= |ws|
    ensures Start(ws, i) + |ws[i]| <= Start(ws, j)
    decreases j
  {
    StartOfNext(ws, j - 1);
    if i < j - 1 {
      StartsAscend(ws, i, j - 1);
    }
  }

  lemma {:induction false} LargeEnough(ws: seq<seq<Byte>>, k: nat)
    requires AllWellFormed(ws) && k < |ws|
    ensures |ws[k]| >= HEADER_OBJECT_SIZE
  {
    assert WellFormed(ws[k]);
  }

  lemma {:induction false} PlaceOf(ws: seq<seq<Byte>>, n: nat)
    requires n <= |Joined(ws)|
    ensures Start(ws, Whole(ws, n)) == Boundary(ws, n) == n - Tail(ws, n)
    ensures if Whole(ws, n) < |ws| then Tail(ws, n) < |ws[Whole(ws, n)]| else Tail(ws, n) == 0
  {
    SplitAt(ws, n);
  }

  /** Counting from the start of packet m. */
  lemma {:induction false} CountFrom(ws: seq<seq<Byte>>, m: nat, n: nat)
    requires AllWellFormed(ws) && m <= |ws| && Start(ws, m) <= n
    ensures var y := n - Start(ws, m);
      Whole(ws, n) == m + Whole(ws[m..], y) && Tail(ws, n) == Tail(ws[m..], y)
  {
    hide WellFormed;
    assert ws == ws[..m] + ws[m..];
    if m < |ws| {
      LargeEnough(ws, m);
    }
    AtBoundary(ws[..m], ws[m..]);
    ReadOn(ws, Start(ws, m), n);
  }

  // ----- Which packets are lost -----

  lemma {:induction false} NotYetLost(ws: seq<seq<Byte>>, ends: seq<nat>, k: nat)
    requires k < |ws| && forall j | 0 <= j < |ends| :: ends[j] <= Start(ws, k)
    ensures !Lost(ws, ends, k)
  {
  }

  /** A read that ends further on does not change what became of a packet. */
  lemma {:induction false} StillLost(ws: seq<seq<Byte>>, ends: seq<nat>, end: nat, k: nat)
    requires AllWellFormed(ws) && k < |ws| && end >= Start(ws, k) + HEADER_OBJECT_SIZE
    ensures Lost(ws, ends + [end], k) <==> Lost(ws, ends, k)
    decreases k
  {
    hide WellFormed, Start;
    if k > 0 {
      LargeEnough(ws, k - 1);
      StartsAscend(ws, k - 1, k);
      StillLost(ws, ends, end, k - 1);
    }
    var all := ends + [end];
    assert forall j | 0 <= j < |ends| :: all[j] == ends[j];
  }

  /** A read that ends inside a packet: it cuts the packet off, or the packet was lost before. */
  lemma {:induction false} LostHere(ws: seq<seq<Byte>>, ends: seq<nat>, end: nat, k: nat)
    requires AllWellFormed(ws) && k < |ws| && end > Start(ws, k)
    ensures Lost(ws, ends + [end], k) <==>
      || Lost(ws, ends, k)
      || (&& end - Start(ws, k) < HEADER_OBJECT_SIZE
          && (end - Start(ws, k) < HEADER_FIELDS_SIZE || k == 0 || !Lost(ws, ends, k - 1)))
  {
    hide WellFormed, Start;
    if k > 0 {
      LargeEnough(ws, k - 1);
      StartsAscend(ws, k - 1, k);
      StillLost(ws, ends, end, k - 1);
    }
    var all := ends + [end];
    assert all[|ends|] == end;
    assert forall j | 0 <= j < |ends| :: all[j] == ends[j];
  }

  /** Packets below k being settled, and those from there on to k' all there and not lost. */
  lemma {:induction false} SparedGrows(ws: seq<seq<Byte>>, ends: seq<nat>, end: nat, k: nat, k': nat)
    requires AllWellFormed(ws) && k <= k' <= |ws| && Start(ws, k') <= end
    requires forall i | k <= i < k' :: !Lost(ws, ends, i)
    ensures Spared(ws, ends + [end], k') == Spared(ws, ends, k) + ws[k..k']
    decreases k'
  {
    hide WellFormed, Start, Lost;
    if k' > 0 {
      LargeEnough(ws, k' - 1);
      StartsAscend(ws, k' - 1, k');
      StillLost(ws, ends, end, k' - 1);
      if k < k' {
        SparedGrows(ws, ends, end, k, k' - 1);
        assert ws[k..k'] == ws[k..k' - 1] + [ws[k' - 1]];
      } else {
        SparedGrows(ws, ends, end, k - 1, k' - 1);
        assert ws[k - 1..k' - 1] == [] && ws[k..k'] == [];
      }
    }
  }

  ghost function ReadsUpTo(ends: seq<nat>, n: nat): set<nat> {
    set j: nat | j < |ends| && ends[j] <= n
  }

  lemma {:induction false} LostWithinReads(ws: seq<seq<Byte>>, ends: seq<nat>, k: nat)
    requires AllWellFormed(ws) && k <= |ws|
    ensures k - |Spared(ws, ends, k)| <= |ReadsUpTo(ends, Start(ws, k))|
  {
    hide WellFormed, Start;
    if k > 0 {
      LostWithinReads(ws, ends, k - 1);
      LargeEnough(ws, k - 1);
      StartsAscend(ws, k - 1, k);
      var before, after := ReadsUpTo(ends, Start(ws, k - 1)), ReadsUpTo(ends, Start(ws, k));
      assert before <= after;
      if Lost(ws, ends, k - 1) {
        var j: nat :| j < |ends| && 0 < ends[j] - Start(ws, k - 1) < HEADER_OBJECT_SIZE;
        LargerSet(before + {j}, after);
      } else {
        LargerSet(before, after);
      }
    }
  }

  lemma {:induction false} LargerSet<T>(a: set<T>, b: set<T>)
    requires a <= b
    ensures |a| <= |b|
  {
    assert b == a + (b - a);
  }

  /** A read loses at most one packet. */
  lemma {:induction false} AtMostOnePerRead(ws: seq<seq<Byte>>, ends: seq<nat>, k: nat)
    requires AllWellFormed(ws) && k <= |ws|
    ensures k - |Spared(ws, ends, k)| <= |ends|
  {
    LostWithinReads(ws, ends, k);
    NoMoreThanReads(ends, Start(ws, k));
  }

  lemma {:induction false} NoMoreThanReads(ends: seq<nat>, n: nat)
    ensures |ReadsUpTo(ends, n)| <= |ends|
  {
    if ends != [] {
      var last := |ends| - 1;
      NoMoreThanReads(ends[..last], n);
      LargerSet(ReadsUpTo(ends, n), ReadsUpTo(ends[..last], n) + {last});
    }
  }

  // ----- The state of the link at byte n -----

  /** The first packet that the link can still get whole. */
  ghost function Upcoming(ws: seq<seq<Byte>>, ends: seq<nat>, n: nat): nat {
    if InGap(ws, ends, n) then Whole(ws, n) + 1 else Whole(ws, n)
  }

  ghost function Kept(ws: seq<seq<Byte>>, ends: seq<nat>, n: nat): (kept: seq<seq<Byte>>)
    requires Upcoming(ws, ends, n) <= |ws|
    ensures AllWellFormed(ws) ==> AllWellFormed(kept)
  {
    Spared(ws, ends, Whole(ws, n)) + ws[Upcoming(ws, ends, n)..]
  }

  ghost function Gap(ws: seq<seq<Byte>>, ends: seq<nat>, n: nat): seq<Byte> {
    if InGap(ws, ends, n) && Tail(ws, n) <= |ws[Whole(ws, n)]| then GapAt(ws, n) else []
  }

  /** Byte n of the stream, counted in the packets kept. */
  ghost function Position(ws: seq<seq<Byte>>, ends: seq<nat>, n: nat): nat
    requires Whole(ws, n) <= |ws|
  {
    |Joined(Spared(ws, ends, Whole(ws, n)))| + if InGap(ws, ends, n) then 0 else Tail(ws, n)
  }

  /** The link is in a state of the stream without the packets lost. */
  ghost predicate Tracks(s: TcpState, ws: seq<seq<Byte>>, ends: seq<nat>, n: nat)
    requires AllWellFormed(ws)
  {
    && n <= |Joined(ws)| && (forall j | 0 <= j < |ends| :: ends[j] <= n)
    && Follows(s, Kept(ws, ends, n), Position(ws, ends, n), Gap(ws, ends, n))
  }

  /** Some packets in front of a stream: counting goes on behind them. */
  lemma {:induction false} Spliced(a: seq<seq<Byte>>, rest: seq<seq<Byte>>, y: nat)
    requires AllWellFormed(rest)
    ensures var n := |Joined(a)| + y;
      && Whole(a + rest, n) == |a| + Whole(rest, y) && Boundary(a + rest, n) == |Joined(a)| + Boundary(rest, y)
      && Tail(a + rest, n) == Tail(rest, y)
    ensures y <= |Joined(rest)| ==>
      |Joined(a)| + y <= |Joined(a + rest)| && Joined(a + rest)[|Joined(a)| + y..] == Joined(rest)[y..]
  {
    hide WellFormed;
    if rest != [] {
      LargeEnough(rest, 0);
    }
    AtBoundary(a, rest);
    ReadOn(a + rest, |Joined(a)|, |Joined(a)| + y);
    assert (a + rest)[|a|..] == rest;
    JoinedAppend(a, rest);
  }

  lemma {:induction false} FromStart(ws: seq<seq<Byte>>, m: nat, y: nat)
    requires m <= |ws| && y <= |Joined(ws[m..])|
    ensures Start(ws, m) + y <= |Joined(ws)| && Joined(ws)[Start(ws, m) + y..] == Joined(ws[m..])[y..]
    ensures |Joined(ws)| == Start(ws, m) + |Joined(ws[m..])|
  {
    JoinedAppend(ws[..m], ws[m..]);
    assert ws == ws[..m] + ws[m..];
  }

  /** What is to come of the stream is what is to come of the packets kept, behind the gap. */
  lemma {:induction false} SameRemaining(ws: seq<seq<Byte>>, ends: seq<nat>, n: nat)
    requires AllWellFormed(ws) && n <= |Joined(ws)|
    ensures Position(ws, ends, n) <= |Joined(Kept(ws, ends, n))|
    ensures Remaining(Kept(ws, ends, n), Position(ws, ends, n), Gap(ws, ends, n)) == Joined(ws)[n..]
  {
    hide WellFormed, Joined, Whole, Boundary, Lost, Spared;
    var q, a := Whole(ws, n), Spared(ws, ends, Whole(ws, n));
    PlaceOf(ws, n);
    FromStart(ws, q, 0);
    if InGap(ws, ends, n) {
      var rest := ws[q + 1..];
      Spliced(a, rest, 0);
      assert Joined(ws[q..]) == ws[q] + Joined(rest) by {
        assert ws[q..] == [ws[q]] + rest;
        JoinedAppend([ws[q]], rest);
        JoinedOne(ws[q]);
      }
      FromStart(ws, q, Tail(ws, n));
      assert Joined(ws)[n..] == ws[q][Tail(ws, n)..] + Joined(rest);
    } else {
      SplitAt(ws, n);
      TailFits(ws, n);
      Spliced(a, ws[q..], Tail(ws, n));
      FromStart(ws, q, Tail(ws, n));
      assert [] + Joined(ws)[n..] == Joined(ws)[n..];
    }
  }

  lemma {:induction false} TailFits(ws: seq<seq<Byte>>, n: nat)
    requires n <= |Joined(ws)|
    ensures Tail(ws, n) <= |Joined(ws[Whole(ws, n)..])|
  {
    RestOfStream(ws, n);
  }

  // ----- One step -----

  /** The bytes read next, the link being in such a state. */
  ghost predicate Reads(s: TcpState, ws: seq<seq<Byte>>, ends: seq<nat>, n: nat, bytes: seq<Byte>) {
    AllWellFormed(ws) && Tracks(s, ws, ends, n) && s.scheduled == Some(|bytes|) && bytes <= Joined(ws)[n..]
  }

  lemma {:induction false} Ahead(ws: seq<seq<Byte>>, ends: seq<nat>, n: nat)
    requires AllWellFormed(ws) && n <= |Joined(ws)| && forall j | 0 <= j < |ends| :: ends[j] <= n
    ensures var m, gap := Upcoming(ws, ends, n), Gap(ws, ends, n);
      && m <= |ws| && Spared(ws, ends, m) == Spared(ws, ends, Whole(ws, n))
      && (forall i | m <= i < |ws| :: !Lost(ws, ends, i))
      && if InGap(ws, ends, n) then gap != [] && Start(ws, m) == n + |gap| && m == Whole(ws, n) + 1
         else gap == [] && Start(ws, m) + Tail(ws, n) == n && m == Whole(ws, n)
  {
    hide WellFormed, Joined, Whole, Boundary, Lost, Start;
    var m := Upcoming(ws, ends, n);
    PlaceOf(ws, n);
    if InGap(ws, ends, n) {
      StartOfNext(ws, m - 1);
    }
    forall i | m <= i < |ws|
      ensures !Lost(ws, ends, i)
    {
      if Whole(ws, n) < i {
        StartsAscend(ws, Whole(ws, n), i);
        NotYetLost(ws, ends, i);
      } else if Tail(ws, n) == 0 {
        NotYetLost(ws, ends, i);
      }
    }
  }

  /** Behind the gap, the bytes read are counted in the stream, from the packet ahead, and in the packets kept. */
  lemma {:induction false} CountsAgree(ws: seq<seq<Byte>>, ends: seq<nat>, n: nat, length: nat)
    requires AllWellFormed(ws) && n + length <= |Joined(ws)| && forall j | 0 <= j < |ends| :: ends[j] <= n
    requires |Gap(ws, ends, n)| <= length
    ensures var m, end := Upcoming(ws, ends, n), n + length;
      m <= Whole(ws, end) <= |ws| && Start(ws, m) <= end
    ensures var m, end, kept := Upcoming(ws, ends, n), n + length, Kept(ws, ends, n);
      var end' := Position(ws, ends, n) + length - |Gap(ws, ends, n)|;
      var before := |Spared(ws, ends, Whole(ws, n))|;
      && 0 <= end' <= |Joined(kept)|
      && Whole(kept, end') == before + (Whole(ws, end) - m) && Tail(kept, end') == Tail(ws, end)
      && (length == 0 ==> Whole(kept, end') == before)
      && Boundary(kept, end') == |Joined(kept[..Whole(kept, end')])|
  {
    hide WellFormed, Joined, Whole, Boundary, Lost, Spared;
    var m, end := Upcoming(ws, ends, n), n + length;
    Ahead(ws, ends, n);
    var y := end - Start(ws, m);
    CountFrom(ws, m, end);
    FromStart(ws, m, 0);
    Spliced(Spared(ws, ends, Whole(ws, n)), ws[m..], y);
    PlaceOf(ws, end);
    PlaceOf(Kept(ws, ends, n), |Joined(Spared(ws, ends, Whole(ws, n)))| + y);
  }

  lemma {:induction false} ComesNext(s: TcpState, ws: seq<seq<Byte>>, ends: seq<nat>, n: nat, bytes: seq<Byte>)
    requires Reads(s, ws, ends, n, bytes)
    ensures Comes(Kept(ws, ends, n), Position(ws, ends, n), Gap(ws, ends, n), bytes)
    ensures n + |bytes| <= |Joined(ws)|
  {
    hide WellFormed, Joined, Whole, Boundary, Lost, Spared, Follows;
    SameRemaining(ws, ends, n);
  }

  /** The next read is undefined if and only if it ends in the header behind a lost packet. */
  lemma {:induction false} UndefinedIffEndsInHeader(
      s: TcpState, ws: seq<seq<Byte>>, ends: seq<nat>, n: nat, bytes: seq<Byte>)
    requires Reads(s, ws, ends, n, bytes)
    ensures Decode(Tcp, s.buffer + bytes, 0, s.history) == Undefined <==> EndsInHeader(ws, ends, n, n + |bytes|)
    ensures EndsInHeader(ws, ends, n, n + |bytes|) <==> OverreadsBehind(Gap(ws, ends, n), bytes)
  {
    hide WellFormed, Joined, Whole, Boundary, Lost, Spared, Start, Follows, Decode;
    ComesNext(s, ws, ends, n, bytes);
    Ahead(ws, ends, n);
    UndefinedIffOverreads(s, Kept(ws, ends, n), Position(ws, ends, n), Gap(ws, ends, n), bytes);
  }

  /** A read that ends behind the gap leaves byte n + length in a lost packet exactly when it drops a short tail. */
  lemma {:induction false} CutIffLost(s: TcpState, ws: seq<seq<Byte>>, ends: seq<nat>, n: nat, bytes: seq<Byte>)
    requires Reads(s, ws, ends, n, bytes) && |Gap(ws, ends, n)| <= |bytes|
    ensures var end := n + |bytes|;
      InGap(ws, ends + [end], end) <==> ShortTail(ws, end) && !HoldsBehind(Gap(ws, ends, n), bytes)
  {
    hide WellFormed, Joined, Whole, Boundary, Lost, Spared, Start, Follows;
    var end, m, gap := n + |bytes|, Upcoming(ws, ends, n), Gap(ws, ends, n);
    ComesNext(s, ws, ends, n, bytes);
    Ahead(ws, ends, n);
    PlaceOf(ws, end);
    CountsAgree(ws, ends, n, |bytes|);
    var q := Whole(ws, end);
    if Tail(ws, end) > 0 {
      LostHere(ws, ends, end, q);
      if q > m {
        StartsAscend(ws, m, q);
        LargeEnough(ws, m);
      } else if gap == [] && ShortTail(ws, end) {
        CountsAgree(ws, ends, n, 0);
        ShortTailIsOfALaterPacket(s, Kept(ws, ends, n), Position(ws, ends, n));
      }
    }
  }

  /** Further on in the same gap the same packets are kept, and the gap is what is left of it. */
  lemma {:induction false} GapShortens(ws: seq<seq<Byte>>, ends: seq<nat>, n: nat, end: nat)
    requires AllWellFormed(ws) && n <= end <= |Joined(ws)| && forall j | 0 <= j < |ends| :: ends[j] <= n
    requires InGap(ws, ends, n) && end < Start(ws, Whole(ws, n) + 1)
    ensures Whole(ws, n) < |ws| && Whole(ws, end) == Whole(ws, n)
    ensures Kept(ws, ends + [end], end) == Kept(ws, ends, n)
    ensures Position(ws, ends + [end], end) == Position(ws, ends, n)
    ensures end - n < |Gap(ws, ends, n)| && Gap(ws, ends + [end], end) == Gap(ws, ends, n)[end - n..]
  {
    hide WellFormed, Joined, Whole, Boundary, Lost, Spared, Start;
    var q := Whole(ws, n);
    StartOfNext(ws, q);
    PlaceOf(ws, n);
    PlaceOf(ws, end);
    BetweenStarts(ws, q, end);
    LostHere(ws, ends, end, q);
    SparedGrows(ws, ends, end, q, q);
    assert Spared(ws, ends + [end], q) == Spared(ws, ends, q) + [] == Spared(ws, ends, q);
    SuffixOfSuffix(ws[q], Tail(ws, n), end - n);
  }

  /** A read that ends inside the gap. */
  lemma {:induction false} TrackInGap(s: TcpState, ws: seq<seq<Byte>>, ends: seq<nat>, n: nat, bytes: seq<Byte>)
    requires Reads(s, ws, ends, n, bytes) && |bytes| < |Gap(ws, ends, n)|
    ensures Tracks(Received(s, bytes), ws, ends + [n + |bytes|], n + |bytes|)
  {
    hide WellFormed, Joined, Whole, Boundary, Lost, Spared, Start, Follows, Received, OverreadsBehind,
      Kept, Position, Gap;
    ComesNext(s, ws, ends, n, bytes);
    Ahead(ws, ends, n);
    GapShortens(ws, ends, n, n + |bytes|);
    LaterIsLonger(Gap(ws, ends, n), bytes);
    StepFollows(s, Kept(ws, ends, n), Position(ws, ends, n), Gap(ws, ends, n), bytes);
  }

  lemma {:induction false} LaterIsLonger(gap: seq<Byte>, bytes: seq<Byte>)
    ensures OverreadsBehind(gap, bytes) ==> |bytes| >= |gap|
  {
  }

  lemma {:induction false} BetweenStarts(ws: seq<seq<Byte>>, k: nat, n: nat)
    requires k < |ws| && n <= |Joined(ws)| && Start(ws, k) <= n < Start(ws, k + 1)
    ensures Whole(ws, n) == k
  {
    hide Joined, Whole, Boundary, Start;
    var q := Whole(ws, n);
    PlaceOf(ws, n);
    if q < k {
      StartsAscend(ws, q, k);
    } else if q > k {
      if q > k + 1 {
        StartsAscend(ws, k + 1, q);
      }
    }
  }

  lemma {:induction false} SparedBehind(ws: seq<seq<Byte>>, ends: seq<nat>, n: nat, end: nat)
    requires AllWellFormed(ws) && n <= end <= |Joined(ws)| && forall j | 0 <= j < |ends| :: ends[j] <= n
    requires |Gap(ws, ends, n)| <= end - n
    ensures Upcoming(ws, ends, n) <= |ws| && Whole(ws, end) <= |ws|
    ensures var kept, end' := Kept(ws, ends, n), Position(ws, ends, n) + end - n - |Gap(ws, ends, n)|;
      var spared := Spared(ws, ends + [end], Whole(ws, end));
      && 0 <= end' <= |Joined(kept)|
      && kept == spared + ws[Whole(ws, end)..]
      && Whole(kept, end') == |spared| && Tail(kept, end') == Tail(ws, end)
      && Boundary(kept, end') == |Joined(spared)| && end' == |Joined(spared)| + Tail(ws, end)
  {
    hide WellFormed, Joined, Whole, Boundary, Lost, Spared, Start;
    var q, m := Whole(ws, end), Upcoming(ws, ends, n);
    Ahead(ws, ends, n);
    CountsAgree(ws, ends, n, end - n);
    SparedUpTo(ws, ends, n, end);
    hide Gap, Upcoming, InGap;
    var before, spared := Spared(ws, ends, Whole(ws, n)), Spared(ws, ends + [end], q);
    assert before + ws[m..] == spared + ws[q..];
    assert (spared + ws[q..])[..|spared|] == spared;
  }

  /** Behind the gap the packets kept are the same, but for the one the read ends in if it is lost. */
  lemma {:induction false} KeptBehind(ws: seq<seq<Byte>>, ends: seq<nat>, n: nat, end: nat)
    requires AllWellFormed(ws) && n <= end <= |Joined(ws)| && forall j | 0 <= j < |ends| :: ends[j] <= n
    requires |Gap(ws, ends, n)| <= end - n
    ensures Upcoming(ws, ends, n) <= |ws| && Whole(ws, end) <= |ws|
    ensures var kept, end' := Kept(ws, ends, n), Position(ws, ends, n) + end - n - |Gap(ws, ends, n)|;
      && 0 <= end' <= |Joined(kept)| && (ShortTail(kept, end') <==> ShortTail(ws, end))
      && if InGap(ws, ends + [end], end) then
           && Whole(kept, end') < |kept| && Tail(kept, end') < |kept[Whole(kept, end')]|
           && Kept(ws, ends + [end], end) == WithoutPacket(kept, end')
           && Position(ws, ends + [end], end) == Boundary(kept, end')
           && Gap(ws, ends + [end], end) == GapAt(kept, end')
         else
           && Kept(ws, ends + [end], end) == kept
           && Position(ws, ends + [end], end) == end' && Gap(ws, ends + [end], end) == []
  {
    hide WellFormed, Joined, Whole, Boundary, Lost, Spared, Start;
    var q := Whole(ws, end);
    PlaceOf(ws, end);
    SparedBehind(ws, ends, n, end);
    var kept := Kept(ws, ends, n);
    var spared := Spared(ws, ends + [end], q);
    hide Gap, Upcoming;
    if InGap(ws, ends + [end], end) {
      assert kept[|spared|] == ws[q];
      assert kept[|spared| + 1..] == ws[q + 1..];
    }
  }

  /** A read that ends behind the gap, or without one, and not in a packet that is lost. */
  lemma {:induction false} TrackKept(s: TcpState, ws: seq<seq<Byte>>, ends: seq<nat>, n: nat, bytes: seq<Byte>)
    requires Reads(s, ws, ends, n, bytes) && |Gap(ws, ends, n)| <= |bytes|
    requires !OverreadsBehind(Gap(ws, ends, n), bytes)
    requires !InGap(ws, ends + [n + |bytes|], n + |bytes|)
    ensures Tracks(Received(s, bytes), ws, ends + [n + |bytes|], n + |bytes|)
  {
    hide WellFormed, Joined, Whole, Boundary, Lost, Spared, Start, Follows, Received, OverreadsBehind, HoldsBehind,
      EndsInHeader, InGap, NoMagicIn, PlainBehind, Kept, Position, Gap, Upcoming, ShortTail, GapAt, WithoutPacket,
      FollowsWithout, CutsPlainly;
    var end := n + |bytes|;
    ComesNext(s, ws, ends, n, bytes);
    CutIffLost(s, ws, ends, n, bytes);
    KeptBehind(ws, ends, n, end);
    var kept, pos, gap := Kept(ws, ends, n), Position(ws, ends, n), Gap(ws, ends, n);
    StepKeeps(s, kept, pos, gap, bytes, pos + |bytes| - |gap|);
  }

  /** A read that ends in a packet that is lost by it. */
  lemma {:induction false} TrackCut(s: TcpState, ws: seq<seq<Byte>>, ends: seq<nat>, n: nat, bytes: seq<Byte>)
    requires Reads(s, ws, ends, n, bytes) && |Gap(ws, ends, n)| <= |bytes|
    requires !OverreadsBehind(Gap(ws, ends, n), bytes) && PlainBehind(ws, ends + [n + |bytes|])
    requires InGap(ws, ends + [n + |bytes|], n + |bytes|)
    ensures Tracks(Received(s, bytes), ws, ends + [n + |bytes|], n + |bytes|)
  {
    hide WellFormed, Joined, Whole, Boundary, Lost, Spared, Start, Follows, Received, OverreadsBehind, HoldsBehind,
      EndsInHeader, InGap, NoMagicIn, PlainBehind, Kept, Position, Gap, Upcoming, ShortTail, GapAt, WithoutPacket,
      FollowsWithout, CutsPlainly;
    var end := n + |bytes|;
    ComesNext(s, ws, ends, n, bytes);
    CutIffLost(s, ws, ends, n, bytes);
    KeptBehind(ws, ends, n, end);
    var kept, pos, gap := Kept(ws, ends, n), Position(ws, ends, n), Gap(ws, ends, n);
    var end' := pos + |bytes| - |gap|;
    PlainAt(ws, ends, end);
    GapOf(ws, ends + [end], end);
    CutsPlainlyBy(kept, end');
    StepDrops(s, kept, pos, gap, bytes, end');
    TracksWithout(Received(s, bytes), ws, ends + [end], end, kept, end');
  }

  lemma {:induction false} CutsPlainlyBy(ws: seq<seq<Byte>>, n: nat)
    requires Whole(ws, n) < |ws| && Tail(ws, n) < |ws[Whole(ws, n)]| && NoMagicIn(GapAt(ws, n))
    ensures CutsPlainly(ws, n)
  {
  }

  lemma {:induction false} TracksWithout(
      s: TcpState, ws: seq<seq<Byte>>, ends: seq<nat>, n: nat, kept: seq<seq<Byte>>, m: nat)
    requires AllWellFormed(ws) && n <= |Joined(ws)| && forall j | 0 <= j < |ends| :: ends[j] <= n
    requires FollowsWithout(s, kept, m)
    requires Upcoming(ws, ends, n) <= |ws| && Whole(ws, n) <= |ws|
    requires Kept(ws, ends, n) == WithoutPacket(kept, m) && Position(ws, ends, n) == Boundary(kept, m)
    requires Gap(ws, ends, n) == GapAt(kept, m)
    ensures Tracks(s, ws, ends, n)
  {
    hide WellFormed, Joined, Whole, Boundary, Follows, Kept, Position, Gap, Upcoming;
  }

  lemma {:induction false} GapOf(ws: seq<seq<Byte>>, ends: seq<nat>, n: nat)
    requires InGap(ws, ends, n) && Tail(ws, n) < |ws[Whole(ws, n)]|
    ensures Gap(ws, ends, n) == GapAt(ws, n) && Upcoming(ws, ends, n) == Whole(ws, n) + 1 <= |ws|
  {
  }

  lemma {:induction false} SparedUpTo(ws: seq<seq<Byte>>, ends: seq<nat>, n: nat, end: nat)
    requires AllWellFormed(ws) && n <= end <= |Joined(ws)| && forall j | 0 <= j < |ends| :: ends[j] <= n
    requires |Gap(ws, ends, n)| <= end - n
    ensures Upcoming(ws, ends, n) <= Whole(ws, end) <= |ws|
    ensures Spared(ws, ends + [end], Whole(ws, end))
         == Spared(ws, ends, Whole(ws, n)) + ws[Upcoming(ws, ends, n)..Whole(ws, end)]
  {
    hide WellFormed, Joined, Whole, Boundary, Lost, Spared, Start;
    Ahead(ws, ends, n);
    CountsAgree(ws, ends, n, end - n);
    PlaceOf(ws, end);
    SparedGrows(ws, ends, end, Upcoming(ws, ends, n), Whole(ws, end));
  }

  lemma {:induction false} PlainAt(ws: seq<seq<Byte>>, ends: seq<nat>, end: nat)
    requires PlainBehind(ws, ends + [end]) && end <= |Joined(ws)| && ShortTail(ws, end)
    ensures Whole(ws, end) < |ws| && Tail(ws, end) < |ws[Whole(ws, end)]| && NoMagicIn(GapAt(ws, end))
  {
    hide Joined, Whole, Boundary, NoMagicIn, Start;
    PlaceOf(ws, end);
    assert (ends + [end])[|ends|] == end;
  }

  // ----- Whole runs -----

  lemma {:induction false} UndefinedStops(s: TcpState, bytes: seq<Byte>)
    ensures Decode(Tcp, s.buffer + bytes, 0, s.history) == Undefined ==> Received(s, bytes).scheduled.None?
  {
    hide Decode;
  }

  lemma {:induction false} FollowsPublishes(
      s: TcpState, ws: seq<seq<Byte>>, n: nat, gap: seq<Byte>, scans: seq<Scan>)
    requires AllWellFormed(ws) && Follows(s, ws, n, gap) && n <= |Joined(ws)|
    ensures Publishes(Tcp, s.history.closed, scans)
       <==> Publishes(Tcp, FeedAll(Tcp, EMPTY, PacketsIn(ws, n)).closed, scans)
  {
    hide WellFormed, FeedAll, Observe, Publishes, PacketsOf, HeaderOf, Joined;
    var fed := FeedAll(Tcp, EMPTY, PacketsIn(ws, n));
    if gap == [] && Holding(s, ws, n) {
      SeeingPublishesNothing(fed, FirstHeader(ws[Whole(ws, n)..]), scans);
    } else if SeenHeader(ws, n).Some? {
      SeeingPublishesNothing(fed, SeenHeader(ws, n).value, scans);
    }
  }

  lemma {:induction false} TrackStep(s: TcpState, ws: seq<seq<Byte>>, ends: seq<nat>, n: nat, bytes: seq<Byte>)
    requires Reads(s, ws, ends, n, bytes) && PlainBehind(ws, ends + [n + |bytes|])
    requires Received(s, bytes).scheduled.Some?
    ensures Tracks(Received(s, bytes), ws, ends + [n + |bytes|], n + |bytes|)
  {
    hide Tracks, WellFormed, Received, EndsInHeader, OverreadsBehind, PlainBehind, Decode, Gap, InGap;
    UndefinedIffEndsInHeader(s, ws, ends, n, bytes);
    UndefinedStops(s, bytes);
    if |bytes| < |Gap(ws, ends, n)| {
      TrackInGap(s, ws, ends, n, bytes);
    } else if InGap(ws, ends + [n + |bytes|], n + |bytes|) {
      TrackCut(s, ws, ends, n, bytes);
    } else {
      TrackKept(s, ws, ends, n, bytes);
    }
  }

  /**
   * Every scheduled run that stays defined is a run over the stream without the packets lost: the state of the link
   * is a function of the stream and of where the reads have ended.
   */
  lemma {:induction false} RunTracks(
      s: TcpState, ws: seq<seq<Byte>>, ends: seq<nat>, n: nat, chunks: seq<seq<Byte>>)
    requires AllWellFormed(ws) && Tracks(s, ws, ends, n)
    requires n <= |Joined(ws)| && Joined(chunks) <= Joined(ws)[n..]
    requires Scheduled(s, chunks) && RunFrom(s, chunks).scheduled.Some?
    requires PlainBehind(ws, ends + Ends(n, chunks))
    ensures Tracks(RunFrom(s, chunks), ws, ends + Ends(n, chunks), n + |Joined(chunks)|)
    decreases |chunks|
  {
    hide WellFormed, Received, PlainBehind, Joined, Ends, Tracks;
    if chunks == [] {
      NoChunks(ends, n);
    } else {
      var bytes, end := chunks[0], n + |chunks[0]|;
      FirstChunk(ws, ends, n, chunks);
      PlainSoFar(ws, ends + [end], Ends(end, chunks[1..]));
      TrackStep(s, ws, ends, n, bytes);
      RunTracks(Received(s, bytes), ws, ends + [end], end, chunks[1..]);
    }
  }

  lemma {:induction false} NoChunks(ends: seq<nat>, n: nat)
    ensures ends + Ends(n, []) == ends && |Joined<Byte>([])| == 0
  {
  }

  lemma {:induction false} FirstChunk(ws: seq<seq<Byte>>, ends: seq<nat>, n: nat, chunks: seq<seq<Byte>>)
    requires chunks != [] && n <= |Joined(ws)| && Joined(chunks) <= Joined(ws)[n..]
    ensures chunks[0] <= Joined(ws)[n..] && n + |chunks[0]| <= |Joined(ws)|
    ensures Joined(chunks[1..]) <= Joined(ws)[n + |chunks[0]|..]
    ensures |Joined(chunks)| == |chunks[0]| + |Joined(chunks[1..])|
    ensures ends + Ends(n, chunks) == ends + [n + |chunks[0]|] + Ends(n + |chunks[0]|, chunks[1..])
  {
    var bytes, end := chunks[0], n + |chunks[0]|;
    PartsOfPrefix(bytes, Joined(chunks[1..]), Joined(ws), n);
    Associative(ends, [end], Ends(end, chunks[1..]));
  }

  lemma {:induction false} PlainSoFar(ws: seq<seq<Byte>>, ends: seq<nat>, more: seq<nat>)
    requires PlainBehind(ws, ends + more)
    ensures PlainBehind(ws, ends)
  {
    hide Start, NoMagicIn;
    assert forall j | 0 <= j < |ends| :: (ends + more)[j] == ends[j];
  }

  lemma {:induction false} StartsTracked(ws: seq<seq<Byte>>)
    requires AllWellFormed(ws)
    ensures Tracks(INITIAL, ws, [], 0)
  {
    hide Aligned, WellFormed;
    StartsAligned(ws);
    PlaceOf(ws, 0);
    if Whole(ws, 0) > 0 {
      StartsAscend(ws, 0, Whole(ws, 0));
      LargeEnough(ws, 0);
    }
    assert ws[0..] == ws && Kept(ws, [], 0) == ws;
  }

  /**
   * The link under its own schedule over a well-formed stream, as long as it is defined: its state is that of the
   * stream without the packets lost. All that is asked of the stream is that no packet seems to start in what still
   * comes of a packet after a read has ended 1 to 79 bytes into it.
   */
  lemma {:induction false} ScheduledRunTracks(ws: seq<seq<Byte>>, chunks: seq<seq<Byte>>)
    requires AllWellFormed(ws) && Joined(chunks) <= Joined(ws) && PlainBehind(ws, Ends(0, chunks))
    requires Scheduled(INITIAL, chunks) && RunFrom(INITIAL, chunks).scheduled.Some?
    ensures Tracks(RunFrom(INITIAL, chunks), ws, Ends(0, chunks), |Joined(chunks)|)
  {
    hide WellFormed, PlainBehind, Received, Scheduled, RunFrom, Follows;
    StartsTracked(ws);
    hide Joined, Tracks;
    assert Joined(ws)[0..] == Joined(ws);
    assert [] + Ends(0, chunks) == Ends(0, chunks);
    RunTracks(INITIAL, ws, [], 0, chunks);
  }

  /**
   * The scans published are exactly those of the packets that have come whole and that no read has cut off, fed in
   * order.
   */
  lemma {:induction false} PublishesAllButLost(ws: seq<seq<Byte>>, chunks: seq<seq<Byte>>, scans: seq<Scan>)
    requires AllWellFormed(ws) && Joined(chunks) <= Joined(ws) && PlainBehind(ws, Ends(0, chunks))
    requires Scheduled(INITIAL, chunks) && RunFrom(INITIAL, chunks).scheduled.Some?
    ensures var n := |Joined(chunks)|;
      && Whole(ws, n) <= |ws|
      && var received := PacketsOf(Spared(ws, Ends(0, chunks), Whole(ws, n)));
         Publishes(Tcp, RunFrom(INITIAL, chunks).history.closed, scans)
         <==> Publishes(Tcp, FeedAll(Tcp, EMPTY, received).closed, scans)
  {
    hide WellFormed, PlainBehind, Publishes, FeedAll, Joined, Scheduled, RunFrom, Tracks;
    ScheduledRunTracks(ws, chunks);
    TracksPublishes(RunFrom(INITIAL, chunks), ws, Ends(0, chunks), |Joined(chunks)|, scans);
  }

  /** And the next read is undefined if and only if it starts inside a packet lost and ends 2 to 75 bytes behind it. */
  lemma {:induction false} UndefinedBehindLost(ws: seq<seq<Byte>>, chunks: seq<seq<Byte>>, next: seq<Byte>)
    requires AllWellFormed(ws) && Joined(chunks) + next <= Joined(ws) && PlainBehind(ws, Ends(0, chunks))
    requires Scheduled(INITIAL, chunks) && RunFrom(INITIAL, chunks).scheduled == Some(|next|)
    ensures var s, n := RunFrom(INITIAL, chunks), |Joined(chunks)|;
      Decode(Tcp, s.buffer + next, 0, s.history) == Undefined
      <==> EndsInHeader(ws, Ends(0, chunks), n, n + |next|)
  {
    hide WellFormed, PlainBehind, Joined, Scheduled, RunFrom, Tracks, Decode, EndsInHeader;
    assert Joined(chunks) <= Joined(chunks) + next;
    ScheduledRunTracks(ws, chunks);
    assert next <= Joined(ws)[|Joined(chunks)|..];
    UndefinedIffEndsInHeader(RunFrom(INITIAL, chunks), ws, Ends(0, chunks), |Joined(chunks)|, next);
  }

  lemma {:induction false} TracksPublishes(
      s: TcpState, ws: seq<seq<Byte>>, ends: seq<nat>, n: nat, scans: seq<Scan>)
    requires AllWellFormed(ws) && Tracks(s, ws, ends, n)
    ensures Whole(ws, n) <= |ws|
    ensures Publishes(Tcp, s.history.closed, scans)
       <==> Publishes(Tcp, FeedAll(Tcp, EMPTY, PacketsOf(Spared(ws, ends, Whole(ws, n)))).closed, scans)
  {
    hide WellFormed, Publishes, FeedAll, Joined, Whole, Boundary, Lost, Spared, Start, Follows, PacketsOf;
    SameRemaining(ws, ends, n);
    FollowsPublishes(s, Kept(ws, ends, n), Position(ws, ends, n), Gap(ws, ends, n), scans);
    Ahead(ws, ends, n);
    PositionIn(ws, ends, n);
  }

  /** Of the packets kept, those behind which the link is are those spared. */
  lemma {:induction false} PositionIn(ws: seq<seq<Byte>>, ends: seq<nat>, n: nat)
    requires AllWellFormed(ws) && n <= |Joined(ws)| && Upcoming(ws, ends, n) <= |ws|
    ensures var spared := Spared(ws, ends, Whole(ws, n));
      && Whole(Kept(ws, ends, n), Position(ws, ends, n)) == |spared|
      && Kept(ws, ends, n)[..|spared|] == spared
  {
    hide WellFormed, Joined, Lost, Spared;
    var rest := ws[Upcoming(ws, ends, n)..];
    var y := if InGap(ws, ends, n) then 0 else Tail(ws, n);
    PlaceOf(ws, n);
    Spliced(Spared(ws, ends, Whole(ws, n)), rest, y);
    if rest != [] {
      LargeEnough(rest, 0);
    }
  }
}
