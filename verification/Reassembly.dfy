/**
 * What the two factories guarantee about whole scans: resynchronisation after losses, independence of the order
 * of arrival over UDP and exactly when it holds, and agreement of the two transports.
 */
module Reassembly {
  import opened Sequences
  import opened Data
  import opened ScanAssembly

  // ----- Resynchronisation -----

  /** The packets of one scan, in an order in which no proper part of them is complete and all of them are. */
  ghost predicate CompletesOnce(t: Transport, ps: seq<Packet>) {
    && Coherent(ps) && Complete(t, ps)
    && forall i | 0 < i < |ps| :: !Complete(t, ps[..i])
  }

  /** The history once the factory has seen that a packet starts something new. */
  function Cut(h: History): History {
    if h.open == [] then h else History(h.closed + [Discarded(h.open)], [])
  }

  ghost predicate NeverComplete(t: Transport, ps: seq<Packet>) {
    forall i | 0 < i <= |ps| :: !Complete(t, ps[..i])
  }

  lemma {:induction false} NeverCompletePart(t: Transport, ps: seq<Packet>, n: nat)
    requires n <= |ps| && forall i | 0 < i <= n :: !Complete(t, ps[..i])
    ensures NeverComplete(t, ps[..n])
  {
    forall i | 0 < i <= n
      ensures !Complete(t, ps[..n][..i])
    {
      assert ps[..n][..i] == ps[..i];
    }
  }

  /** As long as they do not complete a scan, the packets of one pile up behind whatever they cut off. */
  lemma {:induction false} PilesUp(t: Transport, h: History, ps: seq<Packet>)
    requires ps != [] && Coherent(ps) && NeverComplete(t, ps)
    requires h.open == [] || StartsOver(h.open, ps[0].header)
    ensures FeedAll(t, h, ps) == History(Cut(h).closed, ps)
  {
    var n := |ps| - 1;
    assert ps == ps[..n] + [ps[n]] && ps == ps[..|ps|];
    if n > 0 {
      NeverCompletePart(t, ps, n);
      PilesUp(t, h, ps[..n]);
    }
  }

  /**
   * However many packets were lost before, and whatever the factory still holds, the packets of a scan that starts
   * something new are emitted as that scan, with no point of any other, and leave the factory empty. Nothing is
   * emitted before the last of them.
   */
  lemma {:induction false} Resynchronises(t: Transport, h: History, ps: seq<Packet>)
    requires CompletesOnce(t, ps)
    requires h.open == [] || StartsOver(h.open, ps[0].header)
    ensures FeedAll(t, h, ps) == History(Cut(h).closed + [Emitted(ps)], [])
    ensures var before := FeedAll(t, h, ps[..|ps| - 1]);
      if |ps| == 1 then before == h else before == History(Cut(h).closed, ps[..|ps| - 1])
  {
    var n := |ps| - 1;
    assert ps == ps[..n] + [ps[n]];
    if n > 0 {
      NeverCompletePart(t, ps, n);
      PilesUp(t, h, ps[..n]);
    }
  }

  // ----- Scans of exactly the points announced -----

  /** Packets of one scan, none empty, that together have at least the points announced. */
  ghost predicate Enough(ps: seq<Packet>) {
    && ps != [] && Coherent(ps)
    && (forall p | p in ps :: p.header.numPointsScan == ps[0].header.numPointsScan && p.distances != [])
    && Points(ps) >= ps[0].header.numPointsScan
  }

  predicate SomePrefixHolds(ps: seq<Packet>, points: nat) {
    exists j | 0 < j <= |ps| :: Points(ps[..j]) == points
  }

  lemma {:induction false} PointsOfPrefixes(ps: seq<Packet>, i: nat, j: nat)
    requires i < j <= |ps| && forall p | p in ps :: p.distances != []
    ensures Points(ps[..i]) < Points(ps[..j])
  {
    PointsAppend(ps[..i], ps[i..j]);
    HasPoints(ps[i..j]);
    assert ps[..j] == ps[..i] + ps[i..j];
  }

  /** The shortest prefix that is not empty and has so many points. */
  lemma {:induction false} ShortestPrefix(ps: seq<Packet>, points: nat) returns (i: nat)
    requires ps != [] && Points(ps) >= points
    ensures 0 < i <= |ps| && Points(ps[..i]) >= points
    ensures forall j | 0 < j < i :: Points(ps[..j]) < points
  {
    i := 1;
    assert ps[..|ps|] == ps;
    while Points(ps[..i]) < points
      invariant 0 < i <= |ps|
      invariant forall j | 0 < j < i :: Points(ps[..j]) < points
      decreases |ps| - i
    {
      i := i + 1;
    }
  }

  /**
   * From the packets of one scan, after any losses, the scan emitted has exactly the points announced if and only if
   * some of the packets received first, one or more, together have exactly that many. Otherwise it has more.
   */
  lemma {:induction false} EmittedScanIsExact(t: Transport, h: History, ps: seq<Packet>) returns (i: nat)
    requires Enough(ps) && (h.open == [] || StartsOver(h.open, ps[0].header))
    ensures 0 < i <= |ps| && FeedAll(t, h, ps[..i]) == History(Cut(h).closed + [Emitted(ps[..i])], [])
    ensures forall s | AssembledFrom(t, ps[..i], s) ::
              && s.headers != [] && |s.distances| >= s.headers[0].numPointsScan
              && (|s.distances| == s.headers[0].numPointsScan
                  <==> SomePrefixHolds(ps, ps[0].header.numPointsScan))
  {
    hide Points, AssembledFrom;
    var n := ps[0].header.numPointsScan;
    i := ShortestPrefix(ps, n);
    var batch := ps[..i];
    forall j | 0 < j < i
      ensures !Complete(t, batch[..j])
    {
      assert batch[..j] == ps[..j] && ps[j - 1] in ps;
    }
    assert ps[i - 1] in ps;
    Resynchronises(t, h, batch);
    if SomePrefixHolds(ps, n) {
      var j :| 0 < j <= |ps| && Points(ps[..j]) == n;
      if i < j {
        PointsOfPrefixes(ps, i, j);
      }
    }
    forall s | AssembledFrom(t, batch, s)
      ensures |s.distances| == Points(batch) && s.headers != [] && s.headers[0].numPointsScan == n
    {
      PointsAssembled(t, batch, s);
    }
  }

  // ----- Order of arrival -----

  /** A whole scan, in packet order: numbered upwards from 1, no packet empty, exactly the points announced. */
  ghost predicate WholeScan(qs: seq<Packet>) {
    && qs != [] && Increasing(qs) && qs[0].header.packetNumber == 1
    && (forall q | q in qs :: q.header.scanNumber == qs[0].header.scanNumber)
    && (forall q | q in qs :: q.header.numPointsScan == qs[0].header.numPointsScan)
    && (forall q | q in qs :: q.distances != [])
    && Points(qs) == qs[0].header.numPointsScan
  }

  /** What an order of arrival inherits from the scan. */
  ghost predicate Arrival(ps: seq<Packet>, scanNumber: int, numPointsScan: nat, j: nat) {
    && j < |ps| && ps[j].header.packetNumber == 1
    && Points(ps) == numPointsScan
    && forall i | 0 <= i < |ps| ::
         && ps[i].header.scanNumber == scanNumber && ps[i].header.numPointsScan == numPointsScan
         && ps[i].distances != [] && (i != j ==> ps[i].header.packetNumber != 1)
  }

  lemma {:induction false} ArrivalOf(qs: seq<Packet>, ps: seq<Packet>) returns (j: nat)
    requires WholeScan(qs) && multiset(ps) == multiset(qs)
    ensures Arrival(ps, qs[0].header.scanNumber, qs[0].header.numPointsScan, j)
  {
    j := PositionOf(qs, ps, 0);
    PointsOfPermutation(qs, ps);
    forall i | 0 <= i < |ps|
      ensures ps[i] in qs
      ensures i != j ==> ps[i].header.packetNumber != 1
    {
      var k := PositionOf(ps, qs, i);
      if k == 0 && i != j {
        OncePerPosition(ps, i, j);
        OnlyOnce(qs);
      }
    }
  }

  lemma {:induction false} OncePerPosition<T>(s: seq<T>, i: nat, j: nat)
    requires i < |s| && j < |s| && i != j && s[i] == s[j]
    ensures multiset(s)[s[i]] >= 2
  {
    MultisetRemoveAt(s, i);
    var k := if j < i then j else j - 1;
    assert RemoveAt(s, i)[k] == s[j];
    assert s[j] in multiset(RemoveAt(s, i));
  }

  lemma {:induction false} OnlyOnce(qs: seq<Packet>)
    requires qs != [] && Increasing(qs)
    ensures multiset(qs)[qs[0]] == 1
  {
    assert qs == [qs[0]] + qs[1..];
    assert qs[0] !in qs[1..];
  }

  /** Without some of its packets a scan lacks points. */
  lemma {:induction false} PartLacksPoints(ps: seq<Packet>, from: nat, to: nat)
    requires from <= to <= |ps| && to - from < |ps|
    requires forall i | 0 <= i < |ps| :: ps[i].distances != []
    ensures Points(ps[from..to]) < Points(ps)
  {
    PointsOfParts(ps, from, to);
    if from > 0 {
      HasPoints(ps[..from]);
    } else {
      HasPoints(ps[to..]);
    }
  }

  lemma {:induction false} PointsOfParts(ps: seq<Packet>, from: nat, to: nat)
    requires from <= to <= |ps|
    ensures Points(ps) == Points(ps[..from]) + Points(ps[from..to]) + Points(ps[to..])
  {
    PointsAppend(ps[..from], ps[from..to]);
    PointsAppend(ps[..to], ps[to..]);
    assert ps == ps[..to] + ps[to..] && ps[..to] == ps[..from] + ps[from..to];
  }

  lemma {:induction false} HasPoints(ps: seq<Packet>)
    requires ps != [] && ps[|ps| - 1].distances != []
    ensures Points(ps) > 0
  {
  }

  /** No part of an arrival that misses a packet is complete. */
  lemma {:induction false} PartIncomplete(ps: seq<Packet>, scanNumber: int, numPointsScan: nat, j: nat, from: nat, to: nat)
    requires Arrival(ps, scanNumber, numPointsScan, j)
    requires from <= to <= |ps| && to - from < |ps|
    ensures !Complete(Udp, ps[from..to])
  {
    PartLacksPoints(ps, from, to);
    if from < to {
      assert ps[from..to][to - from - 1] == ps[to - 1];
    }
  }

  /** The factory holds nothing of the scan that is about to arrive. */
  predicate Unrelated(h: History, scanNumber: int) {
    h.open != [] ==> h.open[|h.open| - 1].header.scanNumber != scanNumber
  }

  /** With packet 1 first, an arrival completes the scan, and does so at its last packet. */
  lemma {:induction false} FirstPacketFirst(ps: seq<Packet>, scanNumber: int, numPointsScan: nat)
    requires Arrival(ps, scanNumber, numPointsScan, 0)
    ensures CompletesOnce(Udp, ps)
  {
    forall i | 0 < i < |ps|
      ensures !Complete(Udp, ps[..i])
    {
      PartIncomplete(ps, scanNumber, numPointsScan, 0, 0, i);
      assert ps[0..i] == ps[..i];
    }
  }

  /** In packet order the scan is completed at its last packet over TCP too. */
  lemma {:induction false} WholeScanCompletes(t: Transport, qs: seq<Packet>)
    requires WholeScan(qs)
    ensures CompletesOnce(t, qs)
  {
    var j := ArrivalOf(qs, qs);
    var scanNumber, numPointsScan := qs[0].header.scanNumber, qs[0].header.numPointsScan;
    assert j == 0;
    FirstPacketFirst(qs, scanNumber, numPointsScan);
    forall i | 0 < i < |qs|
      ensures !Complete(t, qs[..i])
    {
      assert !Complete(Udp, qs[..i]);
    }
  }

  /** After any losses and over either transport, a whole scan in packet order is emitted, and nothing but it. */
  lemma {:induction false} WholeScanResynchronises(t: Transport, h: History, qs: seq<Packet>)
    requires WholeScan(qs)
    ensures FeedAll(t, h, qs) == History(Cut(h).closed + [Emitted(qs)], [])
  {
    WholeScanCompletes(t, qs);
    Resynchronises(t, h, qs);
  }

  /** With packet 1 later, neither the packets before it nor those from it on ever complete the scan. */
  lemma {:induction false} FirstPacketLate(ps: seq<Packet>, scanNumber: int, numPointsScan: nat, j: nat)
    requires Arrival(ps, scanNumber, numPointsScan, j) && j > 0
    ensures NeverComplete(Udp, ps[..j]) && Coherent(ps[..j])
    ensures NeverComplete(Udp, ps[j..]) && Coherent(ps[j..])
  {
    forall i | 0 < i <= j
      ensures !Complete(Udp, ps[..j][..i])
    {
      PartIncomplete(ps, scanNumber, numPointsScan, j, 0, i);
      assert ps[..j][..i] == ps[0..i];
    }
    forall i | 0 < i <= |ps| - j
      ensures !Complete(Udp, ps[j..][..i])
    {
      PartIncomplete(ps, scanNumber, numPointsScan, j, j, j + i);
      assert ps[j..][..i] == ps[j..j + i];
    }
  }

  /** So the packets before it are thrown away and the rest is never completed. */
  lemma {:induction false} LateScanIsLost(
      h: History, ps: seq<Packet>, scanNumber: int, numPointsScan: nat, j: nat)
    requires Arrival(ps, scanNumber, numPointsScan, j) && j > 0 && Unrelated(h, scanNumber)
    ensures FeedAll(Udp, h, ps) == History(Cut(h).closed + [Discarded(ps[..j])], ps[j..])
  {
    FirstPacketLate(ps, scanNumber, numPointsScan, j);
    var early, late := ps[..j], ps[j..];
    assert early[0] == ps[0] && late[0] == ps[j];
    assert ps == early + late;
    PilesUp(Udp, h, early);
    FeedAllAppend(Udp, h, early, late);
    PilesUp(Udp, FeedAll(Udp, h, early), late);
  }

  ghost predicate EmitsSince(h: History, h': History) {
    exists i | |h.closed| <= i < |h'.closed| :: h'.closed[i].Emitted?
  }

  /**
   * Order independence over UDP, and exactly when the code has it. A whole scan arriving in any order is emitted
   * if and only if its packet 1 arrives first; then it is emitted once, at the last arrival, and whatever sort is
   * used yields the scan in packet order. Otherwise nothing is emitted and part of the scan is left behind.
   */
  lemma {:induction false} OrderOfArrival(h: History, qs: seq<Packet>, ps: seq<Packet>)
    requires WholeScan(qs) && multiset(ps) == multiset(qs)
    requires (ps != [] && ps[0].header.packetNumber == 1) || Unrelated(h, qs[0].header.scanNumber)
    ensures ps != []
    ensures var after := FeedAll(Udp, h, ps);
      && (EmitsSince(h, after) <==> ps[0].header.packetNumber == 1)
      && (ps[0].header.packetNumber == 1 ==> after == History(Cut(h).closed + [Emitted(ps)], []))
      && (ps[0].header.packetNumber != 1 ==> after.open != [])
    ensures !EmitsSince(h, FeedAll(Udp, h, ps[..|ps| - 1]))
    ensures forall s :: AssembledFrom(Udp, ps, s) <==> s == Assemble(qs)
  {
    hide Points, Complete;
    var j := ArrivalOf(qs, ps);
    var scanNumber, numPointsScan := qs[0].header.scanNumber, qs[0].header.numPointsScan;
    var after := FeedAll(Udp, h, ps);
    if j == 0 {
      FirstPacketFirst(ps, scanNumber, numPointsScan);
      Resynchronises(Udp, h, ps);
      assert after.closed[|after.closed| - 1].Emitted?;
    } else {
      LateScanIsLost(h, ps, scanNumber, numPointsScan, j);
      NothingEmittedBefore(h, ps);
    }
    SortedAsTheScan(qs, ps);
  }

  /** Feeding fewer packets closes fewer batches. */
  lemma {:induction false} NothingEmittedBefore(h: History, ps: seq<Packet>)
    requires ps != [] && !EmitsSince(h, FeedAll(Udp, h, ps))
    ensures !EmitsSince(h, FeedAll(Udp, h, ps[..|ps| - 1]))
  {
    var before, after := FeedAll(Udp, h, ps[..|ps| - 1]), FeedAll(Udp, h, ps);
    assert before.closed == after.closed[..|before.closed|];
    assert forall i | 0 <= i < |before.closed| :: before.closed[i] == after.closed[i];
  }

  lemma {:induction false} SortedAsTheScan(qs: seq<Packet>, ps: seq<Packet>)
    requires Increasing(qs) && multiset(ps) == multiset(qs)
    ensures forall s :: AssembledFrom(Udp, ps, s) <==> s == Assemble(qs)
  {
    assert SortedPermutation(ps, qs);
    forall rs | SortedPermutation(ps, rs)
      ensures rs == qs
    {
      SortIsUnique(qs, rs);
    }
  }

  /** Packet 2 before packet 1: all points of the scan arrived, and no scan comes out. */
  lemma {:induction false} ReorderedScanIsLost(first: Packet, second: Packet)
    requires WholeScan([first, second])
    ensures FeedAll(Udp, EMPTY, [second, first]) == History([Discarded([second])], [first])
  {
    var qs, ps := [first, second], [second, first];
    var j := ArrivalOf(qs, ps);
    assert qs[0].header.packetNumber < qs[1].header.packetNumber;
    LateScanIsLost(EMPTY, ps, first.header.scanNumber, first.header.numPointsScan, j);
    assert ps[..1] == [second] && ps[1..] == [first];
  }

  // ----- The two transports agree -----

  /** Neighbours of one scan are numbered upwards and agree on how many points the scan has. */
  predicate Follows(p: Packet, q: Packet) {
    q.header.scanNumber == p.header.scanNumber && q.header.packetNumber != 1 ==>
      p.header.packetNumber < q.header.packetNumber && p.header.numPointsScan == q.header.numPointsScan
  }

  predicate InOrder(ps: seq<Packet>) {
    forall i | 0 <= i < |ps| - 1 :: Follows(ps[i], ps[i + 1])
  }

  lemma {:induction false} InOrderPart(ps: seq<Packet>, n: nat)
    requires InOrder(ps) && n < |ps|
    ensures InOrder(ps[..n])
    ensures n > 0 ==> Follows(ps[n - 1], ps[n])
  {
    forall i | 0 <= i < n - 1
      ensures Follows(ps[..n][i], ps[..n][i + 1])
    {
      assert Follows(ps[i], ps[i + 1]);
    }
    if n > 0 {
      assert Follows(ps[n - 1], ps[n - 1 + 1]);
    }
  }

  ghost predicate OrderedBatch(ps: seq<Packet>) {
    Increasing(ps) && forall i | 0 <= i < |ps| :: ps[i].header.numPointsScan == ps[0].header.numPointsScan
  }

  /** All batches are in packet order. */
  ghost predicate Ordered(h: History) {
    OrderedBatch(h.open) && forall i | 0 <= i < |h.closed| :: OrderedBatch(h.closed[i].packets)
  }

  predicate LastStored(h: History, p: Packet) {
    h.open == [] || h.open[|h.open| - 1] == p
  }

  lemma {:induction false} OrderedStep(h: History, previous: Packet, p: Packet)
    requires Ordered(h) && LastStored(h, previous) && (h.open == [] || Follows(previous, p))
    ensures Feed(Tcp, h, p) == Feed(Udp, h, p)
    ensures Ordered(Feed(Tcp, h, p)) && LastStored(Feed(Tcp, h, p), p)
  {
    hide Points;
    OrderedSnoc(Observe(h, p.header).open, p);
  }

  lemma {:induction false} OrderedSnoc(open: seq<Packet>, p: Packet)
    requires OrderedBatch(open)
    requires open != [] ==> open[|open| - 1].header.packetNumber < p.header.packetNumber
    requires open != [] ==> open[|open| - 1].header.numPointsScan == p.header.numPointsScan
    ensures OrderedBatch(open + [p])
    ensures Complete(Tcp, open + [p]) <==> Complete(Udp, open + [p])
  {
    assert open != [] ==> open[0].header.numPointsScan == p.header.numPointsScan;
    assert (open + [p])[0].header.numPointsScan == p.header.numPointsScan;
  }

  /**
   * On packets received in order the two factories go through the very same states: they hold the same packets,
   * discard the same batches and emit the same ones, and sorting leaves these as they are.
   */
  lemma {:induction false} TransportsAgree(ps: seq<Packet>)
    requires InOrder(ps)
    ensures FeedAll(Tcp, EMPTY, ps) == FeedAll(Udp, EMPTY, ps)
    ensures Ordered(FeedAll(Tcp, EMPTY, ps))
    ensures ps == [] || LastStored(FeedAll(Tcp, EMPTY, ps), ps[|ps| - 1])
  {
    if ps != [] {
      var n := |ps| - 1;
      InOrderPart(ps, n);
      TransportsAgree(ps[..n]);
      var previous := if n > 0 then ps[n - 1] else ps[n];
      OrderedStep(FeedAll(Tcp, EMPTY, ps[..n]), previous, ps[n]);
    }
  }

  lemma {:induction false} SamePublications(closed: seq<Batch>, tcp: seq<Scan>, udp: seq<Scan>)
    requires forall i | 0 <= i < |closed| :: Increasing(closed[i].packets)
    requires Publishes(Tcp, closed, tcp) && Publishes(Udp, closed, udp)
    ensures tcp == udp
  {
    if closed != [] {
      var n := |closed| - 1;
      if closed[n].Emitted? {
        SortedAsTheScan(closed[n].packets, closed[n].packets);
        SamePublications(closed[..n], tcp[..|tcp| - 1], udp[..|udp| - 1]);
        assert tcp == tcp[..|tcp| - 1] + [tcp[|tcp| - 1]] && udp == udp[..|udp| - 1] + [udp[|udp| - 1]];
      } else {
        SamePublications(closed[..n], tcp, udp);
      }
    }
  }

  /** Hence both links publish the same scans. */
  lemma {:induction false} TransportsPublishTheSame(ps: seq<Packet>, tcp: seq<Scan>, udp: seq<Scan>)
    requires InOrder(ps)
    requires Publishes(Tcp, FeedAll(Tcp, EMPTY, ps).closed, tcp)
    requires Publishes(Udp, FeedAll(Udp, EMPTY, ps).closed, udp)
    ensures tcp == udp
  {
    TransportsAgree(ps);
    SamePublications(FeedAll(Tcp, EMPTY, ps).closed, tcp, udp);
  }
}
