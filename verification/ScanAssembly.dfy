/**
 * What both scan factories do with the packets fed to them, on values: batches of packets are opened, and each
 * is closed either by the scan it completes or by the packet that shows it will never be completed.
 */
module ScanAssembly {
  import opened LittleEndian
  import opened Data
  import opened Sequences

  function AllDistances(ps: seq<Packet>): seq<U32> {
    if ps == [] then [] else AllDistances(ps[..|ps| - 1]) + ps[|ps| - 1].distances
  }

  function AllAmplitudes(ps: seq<Packet>): seq<U32> {
    if ps == [] then [] else AllAmplitudes(ps[..|ps| - 1]) + ps[|ps| - 1].amplitudes
  }

  function Headers(ps: seq<Packet>): (hs: seq<Header>)
    ensures |hs| == |ps|
    ensures forall i | 0 <= i < |ps| :: hs[i] == ps[i].header
  {
    if ps == [] then [] else Headers(ps[..|ps| - 1]) + [ps[|ps| - 1].header]
  }

  function Assemble(ps: seq<Packet>): Scan {
    Scan(AllDistances(ps), AllAmplitudes(ps), Headers(ps))
  }

  /** The number of points held. */
  function Points(ps: seq<Packet>): nat {
    if ps == [] then 0 else Points(ps[..|ps| - 1]) + |ps[|ps| - 1].distances|
  }

  lemma {:induction false} PointsAreDistances(ps: seq<Packet>)
    ensures |AllDistances(ps)| == Points(ps)
  {
    if ps != [] {
      PointsAreDistances(ps[..|ps| - 1]);
    }
  }

  /** The factories differ in two ways: whose header says how many points a scan has, and whether they sort. */
  datatype Transport = Tcp | Udp

  function Deciding(t: Transport, ps: seq<Packet>): Header
    requires ps != []
  {
    if t.Tcp? then ps[0].header else ps[|ps| - 1].header
  }

  predicate Complete(t: Transport, ps: seq<Packet>) {
    ps != [] && Points(ps) >= Deciding(t, ps).numPointsScan
  }

  /** A header of another scan, or of the first packet of any scan, empties a factory that holds packets. */
  predicate StartsOver(open: seq<Packet>, h: Header) {
    open != [] && (open[|open| - 1].header.scanNumber != h.scanNumber || h.packetNumber == 1)
  }

  /** When the packets of a scan do not agree, TCP goes by the first header and UDP by the last one received. */
  lemma {:induction false} WhoseHeaderDecides(first: Packet, last: Packet)
    requires |first.distances| == |last.distances| == 1
    ensures Complete(Tcp, [first, last]) <==> first.header.numPointsScan <= 2
    ensures Complete(Udp, [first, last]) <==> last.header.numPointsScan <= 2
  {
    PointsSnoc([], first);
    PointsSnoc([first], last);
    assert [] + [first] == [first] && [first] + [last] == [first, last];
  }

  lemma {:induction false} PointsSnoc(ps: seq<Packet>, p: Packet)
    ensures Points(ps + [p]) == Points(ps) + |p.distances|
  {
    assert (ps + [p])[..|ps|] == ps;
  }

  datatype Batch = Emitted(packets: seq<Packet>) | Discarded(packets: seq<Packet>)

  datatype History = History(closed: seq<Batch>, open: seq<Packet>)

  const EMPTY := History([], [])

  /** The effect of a packet header alone, applied before it is known whether the packet is all there. */
  function Observe(h: History, header: Header): History {
    if StartsOver(h.open, header) then History(h.closed + [Discarded(h.open)], []) else h
  }

  function Feed(t: Transport, h: History, p: Packet): History {
    var before := Observe(h, p.header);
    var open := before.open + [p];
    if Complete(t, open) then History(before.closed + [Emitted(open)], []) else History(before.closed, open)
  }

  function FeedAll(t: Transport, h: History, ps: seq<Packet>): History {
    if ps == [] then h else Feed(t, FeedAll(t, h, ps[..|ps| - 1]), ps[|ps| - 1])
  }

  function Feeding(t: Transport): (History, Packet) -> History {
    (h, p) => Feed(t, h, p)
  }

  lemma {:induction false} FeedAllIsFold(t: Transport, h: History, ps: seq<Packet>)
    ensures FeedAll(t, h, ps) == Fold(Feeding(t), h, ps)
  {
    if ps != [] {
      FeedAllIsFold(t, h, ps[..|ps| - 1]);
    }
  }

  lemma {:induction false} FeedAllAppend(t: Transport, h: History, a: seq<Packet>, b: seq<Packet>)
    ensures FeedAll(t, h, a + b) == FeedAll(t, FeedAll(t, h, a), b)
  {
    FoldAppend(Feeding(t), h, a, b);
    FeedAllIsFold(t, h, a);
    FeedAllIsFold(t, FeedAll(t, h, a), b);
    FeedAllIsFold(t, h, a + b);
  }

  /** Batches once closed stay closed as they are. */
  lemma {:induction false} FeedAllExtends(t: Transport, h: History, ps: seq<Packet>)
    ensures h.closed <= FeedAll(t, h, ps).closed
  {
    hide Complete;
    if ps != [] {
      FeedAllExtends(t, h, ps[..|ps| - 1]);
    }
  }

  function Emissions(closed: seq<Batch>): nat {
    if closed == [] then 0
    else Emissions(closed[..|closed| - 1]) + if closed[|closed| - 1].Emitted? then 1 else 0
  }

  lemma {:induction false} PublishedCount(closed: seq<Batch>, scans: seq<Scan>)
    requires Publishes(Udp, closed, scans)
    ensures |scans| == Emissions(closed)
  {
    if closed != [] {
      var n := |closed| - 1;
      PublishedCount(closed[..n], if closed[n].Emitted? then scans[..|scans| - 1] else scans);
    }
  }

  /** Seeing the header of a packet early, while it is still incomplete, changes nothing that feeding it later does. */
  lemma {:induction false} EarlyClearCommutes(t: Transport, h: History, p: Packet)
    ensures Feed(t, Observe(h, p.header), p) == Feed(t, h, p)
  {
  }

  // ----- What is in an assembled scan -----

  /**
   * The packets stand in the scan one behind the other: every header at its place, and the points of every packet where
   * those of the packets before it end.
   */
  ghost predicate Concatenates(ps: seq<Packet>, s: Scan) {
    && |s.headers| == |ps| && (forall k | 0 <= k < |ps| :: s.headers[k] == ps[k].header)
    && |s.distances| == Points(ps)
    && (forall k | 0 <= k < |ps| :: StandsAt(s.distances, Points(ps[..k]), ps[k].distances))
    && (EvenlyFilled(ps) ==>
          && |s.amplitudes| == Points(ps)
          && forall k | 0 <= k < |ps| :: StandsAt(s.amplitudes, Points(ps[..k]), ps[k].amplitudes))
  }

  predicate StandsAt(values: seq<U32>, at: nat, part: seq<U32>) {
    at + |part| <= |values| && forall i | 0 <= i < |part| :: values[at + i] == part[i]
  }

  predicate EvenlyFilled(ps: seq<Packet>) {
    forall k | 0 <= k < |ps| :: |ps[k].amplitudes| == |ps[k].distances|
  }

  lemma {:induction false} StillStandsAt(values: seq<U32>, at: nat, part: seq<U32>, more: seq<U32>)
    requires StandsAt(values, at, part)
    ensures StandsAt(values + more, at, part)
  {
  }

  lemma {:induction false} DistancesAt(ps: seq<Packet>, k: nat)
    requires k < |ps|
    ensures StandsAt(AllDistances(ps), Points(ps[..k]), ps[k].distances)
  {
    var n := |ps| - 1;
    PointsAreDistances(ps[..n]);
    if k < n {
      DistancesAt(ps[..n], k);
      assert ps[..n][..k] == ps[..k];
      StillStandsAt(AllDistances(ps[..n]), Points(ps[..k]), ps[k].distances, ps[n].distances);
    }
  }

  lemma {:induction false} AmplitudesAt(ps: seq<Packet>, k: nat)
    requires k < |ps| && EvenlyFilled(ps)
    ensures StandsAt(AllAmplitudes(ps), Points(ps[..k]), ps[k].amplitudes)
  {
    var n := |ps| - 1;
    PointsAreAmplitudes(ps[..n]);
    if k < n {
      AmplitudesAt(ps[..n], k);
      assert ps[..n][..k] == ps[..k];
      StillStandsAt(AllAmplitudes(ps[..n]), Points(ps[..k]), ps[k].amplitudes, ps[n].amplitudes);
    }
  }

  lemma {:induction false} PointsAreAmplitudes(ps: seq<Packet>)
    requires EvenlyFilled(ps)
    ensures |AllAmplitudes(ps)| == Points(ps)
  {
    if ps != [] {
      PointsAreAmplitudes(ps[..|ps| - 1]);
    }
  }

  lemma {:induction false} AssembleConcatenates(ps: seq<Packet>)
    ensures Concatenates(ps, Assemble(ps))
  {
    hide Points, AllDistances, AllAmplitudes, StandsAt, EvenlyFilled;
    PointsAreDistances(ps);
    forall k | 0 <= k < |ps|
      ensures StandsAt(AllDistances(ps), Points(ps[..k]), ps[k].distances)
      ensures EvenlyFilled(ps) ==> StandsAt(AllAmplitudes(ps), Points(ps[..k]), ps[k].amplitudes)
    {
      DistancesAt(ps, k);
      if EvenlyFilled(ps) {
        AmplitudesAt(ps, k);
      }
    }
    if EvenlyFilled(ps) {
      PointsAreAmplitudes(ps);
    }
  }

  // ----- Conservation -----

  function Ledger(closed: seq<Batch>): seq<Packet> {
    if closed == [] then [] else Ledger(closed[..|closed| - 1]) + closed[|closed| - 1].packets
  }

  /** Every packet, and so every point, is in exactly one emitted batch, one discarded batch or the factory. */
  function Everything(h: History): seq<Packet> {
    Ledger(h.closed) + h.open
  }

  lemma {:induction false} ObserveConserves(h: History, header: Header)
    ensures Everything(Observe(h, header)) == Everything(h)
  {
    assert (h.closed + [Discarded(h.open)])[..|h.closed|] == h.closed;
  }

  lemma {:induction false} FeedConserves(t: Transport, h: History, p: Packet)
    ensures Everything(Feed(t, h, p)) == Everything(h) + [p]
  {
    ObserveConserves(h, p.header);
    var before := Observe(h, p.header);
    var open := before.open + [p];
    assert (before.closed + [Emitted(open)])[..|before.closed|] == before.closed;
    assert Ledger(before.closed) + open == Everything(before) + [p];
  }

  /** Nothing is lost, duplicated or reordered before the scans are assembled. */
  lemma {:induction false} FeedAllConserves(t: Transport, h: History, ps: seq<Packet>)
    ensures Everything(FeedAll(t, h, ps)) == Everything(h) + ps
  {
    hide Feed, Everything;
    if ps == [] {
      assert Everything(h) + ps == Everything(h);
    } else {
      var n := |ps| - 1;
      FeedAllConserves(t, h, ps[..n]);
      FeedConserves(t, FeedAll(t, h, ps[..n]), ps[n]);
      Associative(Everything(h), ps[..n], [ps[n]]);
      assert ps == ps[..n] + [ps[n]];
    }
  }

  // ----- Reachable states -----

  /** One scan only, its first packet first. */
  ghost predicate Coherent(ps: seq<Packet>) {
    && (forall i | 0 <= i < |ps| :: ps[i].header.scanNumber == ps[0].header.scanNumber)
    && (forall i | 0 < i < |ps| :: ps[i].header.packetNumber != 1)
  }

  /** An emitted batch is complete and was not before its last packet; a discarded batch was never complete. */
  ghost predicate ProperBatch(t: Transport, b: Batch) {
    && b.packets != [] && Coherent(b.packets)
    && !Complete(t, b.packets[..|b.packets| - 1])
    && (Complete(t, b.packets) <==> b.Emitted?)
  }

  ghost predicate ProperBatches(t: Transport, closed: seq<Batch>) {
    forall i | 0 <= i < |closed| :: ProperBatch(t, closed[i])
  }

  ghost predicate ProperOpen(t: Transport, open: seq<Packet>) {
    && Coherent(open) && !Complete(t, open)
    && (open != [] ==> !Complete(t, open[..|open| - 1]))
  }

  ghost predicate Proper(t: Transport, h: History) {
    ProperOpen(t, h.open) && ProperBatches(t, h.closed)
  }

  lemma {:induction false} CloseProperly(t: Transport, closed: seq<Batch>, b: Batch)
    requires ProperBatches(t, closed) && ProperBatch(t, b)
    ensures ProperBatches(t, closed + [b])
  {
  }

  lemma {:induction false} CoherentSnoc(open: seq<Packet>, p: Packet)
    requires Coherent(open) && !StartsOver(open, p.header)
    ensures Coherent(open + [p])
    ensures (open + [p])[..|open|] == open
  {
  }

  lemma {:induction false} ObserveKeepsProper(t: Transport, h: History, header: Header)
    requires Proper(t, h)
    ensures Proper(t, Observe(h, header))
  {
    if StartsOver(h.open, header) {
      CloseProperly(t, h.closed, Discarded(h.open));
    }
  }

  lemma {:induction false} FeedKeepsProper(t: Transport, h: History, p: Packet)
    requires Proper(t, h)
    ensures Proper(t, Feed(t, h, p))
  {
    ObserveKeepsProper(t, h, p.header);
    var before := Observe(h, p.header);
    var open := before.open + [p];
    CoherentSnoc(before.open, p);
    if Complete(t, open) {
      CloseProperly(t, before.closed, Emitted(open));
    }
  }

  /** In every reachable state the factory holds part of one scan, and the batches closed so far are proper. */
  lemma {:induction false} ReachableIsProper(t: Transport, h: History, ps: seq<Packet>)
    requires Proper(t, h)
    ensures Proper(t, FeedAll(t, h, ps))
  {
    if ps != [] {
      ReachableIsProper(t, h, ps[..|ps| - 1]);
      FeedKeepsProper(t, FeedAll(t, h, ps[..|ps| - 1]), ps[|ps| - 1]);
    }
  }

  /** A packet as the payload decoders make it: as many distances and amplitudes as its header announces. */
  predicate Regular(p: Packet) {
    |p.distances| == |p.amplitudes| == p.header.numPointsPacket
  }

  function Announced(hs: seq<Header>): nat {
    if hs == [] then 0 else Announced(hs[..|hs| - 1]) + hs[|hs| - 1].numPointsPacket
  }

  /** The two vectors of a factory have the same length: the points its headers announce. */
  lemma {:induction false} VectorsAgree(ps: seq<Packet>)
    requires forall i | 0 <= i < |ps| :: Regular(ps[i])
    ensures |AllDistances(ps)| == |AllAmplitudes(ps)| == Announced(Headers(ps))
  {
    if ps != [] {
      var n := |ps| - 1;
      VectorsAgree(ps[..n]);
      assert Headers(ps)[..n] == Headers(ps[..n]);
    }
  }

  // ----- Sorting -----

  ghost predicate SortedPermutation(ps: seq<Packet>, qs: seq<Packet>) {
    multiset(qs) == multiset(ps) && Sorted(qs)
  }

  ghost predicate Sorted(qs: seq<Packet>) {
    forall i, j | 0 <= i < j < |qs| :: qs[i].header.packetNumber <= qs[j].header.packetNumber
  }

  predicate Increasing(ps: seq<Packet>) {
    forall i, j | 0 <= i < j < |ps| :: ps[i].header.packetNumber < ps[j].header.packetNumber
  }

  lemma {:induction false} PositionOf<T>(s: seq<T>, t: seq<T>, i: nat) returns (k: nat)
    requires multiset(s) == multiset(t) && i < |s|
    ensures k < |t| && t[k] == s[i]
    ensures |s| == |t|
  {
    assert |multiset(s)| == |s| && |multiset(t)| == |t|;
    assert s[i] in multiset(t);
    k :| 0 <= k < |t| && t[k] == s[i];
  }

  /** With distinct packet numbers there is one way to sort, so the sort need not be stable. */
  lemma {:induction false} SortIsUnique(qs: seq<Packet>, rs: seq<Packet>)
    requires Increasing(qs) && SortedPermutation(qs, rs)
    ensures rs == qs
  {
    if qs == [] {
      assert |multiset(rs)| == |rs|;
    } else {
      var k := PositionOf(qs, rs, 0);
      var j := PositionOf(rs, qs, 0);
      assert j == 0;
      MultisetRemoveSame(qs, 0, rs, 0);
      assert RemoveAt(qs, 0) == qs[1..] && RemoveAt(rs, 0) == rs[1..];
      SortIsUnique(qs[1..], rs[1..]);
    }
  }

  lemma {:induction false} PointsAppend(a: seq<Packet>, b: seq<Packet>)
    ensures Points(a + b) == Points(a) + Points(b)
  {
    if b == [] {
      assert a + b == a;
    } else {
      PointsAppend(a, b[..|b| - 1]);
      assert (a + b)[..|a + b| - 1] == a + b[..|b| - 1];
    }
  }

  lemma {:induction false} PointsRemoveAt(ps: seq<Packet>, k: nat)
    requires k < |ps|
    ensures Points(ps) == Points(RemoveAt(ps, k)) + |ps[k].distances|
  {
    PointsAppend(ps[..k], ps[k + 1..]);
    PointsAppend(ps[..k + 1], ps[k + 1..]);
    assert ps == ps[..k + 1] + ps[k + 1..];
    assert ps[..k + 1][..k] == ps[..k];
  }

  /** Reordering packets does not change how many points they hold. */
  lemma {:induction false} PointsOfPermutation(a: seq<Packet>, b: seq<Packet>)
    requires multiset(a) == multiset(b)
    ensures Points(a) == Points(b) && |a| == |b|
  {
    if a == [] {
      assert |multiset(b)| == |b|;
    } else {
      var n := |a| - 1;
      var k := PositionOf(a, b, n);
      MultisetRemoveSame(a, n, b, k);
      assert RemoveAt(a, n) == a[..n];
      PointsOfPermutation(a[..n], RemoveAt(b, k));
      PointsRemoveAt(b, k);
    }
  }

  // ----- Published scans -----

  /** The scan a batch is turned into: as received over TCP, sorted in some way over UDP. */
  ghost predicate AssembledFrom(t: Transport, batch: seq<Packet>, s: Scan) {
    match t
    case Tcp => s == Assemble(batch)
    case Udp => exists qs :: SortedPermutation(batch, qs) && s == Assemble(qs)
  }

  /** So it holds the points of all its packets: in order of reception over TCP, of packet numbers over UDP. */
  lemma {:induction false} AssembledInOrder(t: Transport, batch: seq<Packet>, s: Scan)
    requires AssembledFrom(t, batch, s)
    ensures t.Tcp? ==> Concatenates(batch, s)
    ensures t.Udp? ==> exists qs :: SortedPermutation(batch, qs) && Concatenates(qs, s)
  {
    if t.Tcp? {
      AssembleConcatenates(batch);
    } else {
      var qs :| SortedPermutation(batch, qs) && s == Assemble(qs);
      AssembleConcatenates(qs);
    }
  }

  /** The scans published are those of the emitted batches, each once, in order. */
  ghost predicate Publishes(t: Transport, closed: seq<Batch>, scans: seq<Scan>) {
    if closed == [] then scans == []
    else
      var n := |closed| - 1;
      if closed[n].Emitted? then
        && scans != []
        && AssembledFrom(t, closed[n].packets, scans[|scans| - 1])
        && Publishes(t, closed[..n], scans[..|scans| - 1])
      else Publishes(t, closed[..n], scans)
  }

  lemma {:induction false} PublishOne(t: Transport, closed: seq<Batch>, scans: seq<Scan>, batch: seq<Packet>, s: Scan)
    requires Publishes(t, closed, scans) && AssembledFrom(t, batch, s)
    ensures Publishes(t, closed + [Emitted(batch)], scans + [s])
  {
    assert (closed + [Emitted(batch)])[..|closed|] == closed;
    assert (scans + [s])[..|scans|] == scans;
  }

  lemma {:induction false} PublishNone(t: Transport, closed: seq<Batch>, scans: seq<Scan>, batch: seq<Packet>)
    requires Publishes(t, closed, scans)
    ensures Publishes(t, closed + [Discarded(batch)], scans)
  {
    assert (closed + [Discarded(batch)])[..|closed|] == closed;
  }

  /** The points of a scan assembled, and the number its first header announces. */
  lemma {:induction false} PointsAssembled(t: Transport, batch: seq<Packet>, s: Scan)
    requires batch != [] && AssembledFrom(t, batch, s)
    requires forall p | p in batch :: p.header.numPointsScan == batch[0].header.numPointsScan
    ensures |s.distances| == Points(batch)
    ensures s.headers != [] && s.headers[0].numPointsScan == batch[0].header.numPointsScan
  {
    PointsAreDistances(batch);
    if t.Udp? {
      var qs :| SortedPermutation(batch, qs) && s == Assemble(qs);
      PointsOfPermutation(batch, qs);
      PointsAreDistances(qs);
      assert qs[0] in multiset(batch);
    }
  }

  /** Two packets of two points each, for a scan of three: the scan emitted has four. */
  lemma {:induction false} ScanMayOvershoot(t: Transport, first: Packet, second: Packet)
    requires |first.distances| == |second.distances| == 2
    requires first.header.numPointsScan == second.header.numPointsScan == 3
    requires first.header.scanNumber == second.header.scanNumber
    requires first.header.packetNumber == 1 && second.header.packetNumber == 2
    ensures FeedAll(t, EMPTY, [first, second]) == History([Emitted([first, second])], [])
    ensures |Assemble([first, second]).distances| == 4
  {
    var ps := [first, second];
    assert ps[..|ps| - 1] == [first] && [first][..0] == [];
    assert Points([first]) == Points([]) + 2 == 2;
    assert Points(ps) == Points([first]) + |ps[1].distances|;
    assert FeedAll(t, EMPTY, [first]) == Feed(t, EMPTY, first) == History([], [first]);
    assert [first] + [second] == ps;
    PointsAreDistances(ps);
  }

  /** Scan.IsComplete holds of what TCP emits, and of what UDP emits when the packets agree on the size of the scan. */
  lemma {:induction false} EmittedScanIsComplete(t: Transport, b: Batch, s: Scan)
    requires ProperBatch(t, b) && b.Emitted? && AssembledFrom(t, b.packets, s)
    requires t.Udp? ==> forall p | p in b.packets ::
               p.header.numPointsScan == b.packets[0].header.numPointsScan
    ensures s.IsComplete()
    ensures |s.distances| == Points(b.packets)
    ensures Points(b.packets[..|b.packets| - 1]) < b.packets[0].header.numPointsScan || |b.packets| == 1
  {
    PointsAreDistances(b.packets);
    if t.Udp? {
      var qs :| SortedPermutation(b.packets, qs) && s == Assemble(qs);
      PointsOfPermutation(b.packets, qs);
      PointsAreDistances(qs);
      assert qs[0] in multiset(b.packets);
    }
  }
}
