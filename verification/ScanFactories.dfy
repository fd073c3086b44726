/**
 * The two factories (include/DataLink/TCPLink.hpp:41-129 and include/DataLink/UDPLink.hpp:33-148), each tied to the
 * packets fed to it since it was last empty.
 */
module ScanFactories {
  import opened LittleEndian
  import opened Data
  import opened ScanAssembly

  /** The factory of the TCP link: three vectors that grow side by side. */
  class TcpScanFactory {
    var distances: seq<U32>
    var amplitudes: seq<U32>
    var headers: seq<Header>
    ghost var packets: seq<Packet>

    ghost predicate Valid()
      reads this
    {
      && distances == AllDistances(packets)
      && amplitudes == AllAmplitudes(packets)
      && headers == Headers(packets)
    }

    constructor ()
      ensures Valid() && packets == []
    {
      distances, amplitudes, headers, packets := [], [], [], [];
    }

    method AddPacket(header: Header, inputDistances: seq<U32>, inputAmplitudes: seq<U32>)
      requires Valid()
      modifies this
      ensures Valid() && packets == old(packets) + [Packet(header, inputDistances, inputAmplitudes)]
    {
      distances := distances + inputDistances;
      amplitudes := amplitudes + inputAmplitudes;
      headers := headers + [header];
      packets := packets + [Packet(header, inputDistances, inputAmplitudes)];
      assert packets[..|packets| - 1] == old(packets);
    }

    predicate Empty()
      requires Valid()
      reads this
      ensures Empty() <==> packets == []
    {
      headers == []
    }

    predicate IsComplete()
      requires Valid()
      reads this
      ensures IsComplete() <==> Complete(Tcp, packets)
    {
      PointsAreDistances(packets);
      headers != [] && |distances| >= headers[0].numPointsScan
    }

    predicate IsDifferentScan(header: Header)
      requires Valid()
      reads this
      ensures IsDifferentScan(header) <==>
        packets == [] || packets[|packets| - 1].header.scanNumber != header.scanNumber
    {
      !(headers != [] && headers[|headers| - 1].scanNumber == header.scanNumber)
    }

    method Clear()
      modifies this
      ensures Valid() && packets == []
    {
      distances, amplitudes, headers, packets := [], [], [], [];
    }

    /** Assembles the scan, in the order of reception, and empties the factory. */
    method TakeScan() returns (scan: Scan)
      requires Valid()
      modifies this
      ensures Valid() && packets == [] && AssembledFrom(Tcp, old(packets), scan)
      ensures Concatenates(old(packets), scan)
    {
      scan := Scan(distances, amplitudes, headers);
      AssembledInOrder(Tcp, packets, scan);
      Clear();
    }
  }

  /** The factory of the UDP link: a list of packets in order of arrival, and a 32-bit count of their points. */
  class UdpScanFactory {
    var packets: seq<Packet>
    var numberOfPoints: U32

    ghost predicate Valid()
      reads this
    {
      numberOfPoints == Points(packets) % TWO32
    }

    constructor ()
      ensures Valid() && packets == []
    {
      packets, numberOfPoints := [], 0;
    }

    method AddPacket(header: Header, inputDistances: seq<U32>, inputAmplitudes: seq<U32>)
      requires Valid()
      modifies this
      ensures Valid() && packets == old(packets) + [Packet(header, inputDistances, inputAmplitudes)]
    {
      numberOfPoints := (numberOfPoints + |inputDistances|) % TWO32;
      packets := packets + [Packet(header, inputDistances, inputAmplitudes)];
      assert packets[..|packets| - 1] == old(packets);
    }

    predicate Empty()
      reads this
      ensures Empty() <==> packets == []
    {
      packets == []
    }

    /** The count is that of the points modulo 2^32, so exact as long as it has not wrapped around. */
    predicate IsComplete()
      requires Valid()
      reads this
      ensures IsComplete() <==>
        packets != [] && Points(packets) % TWO32 >= packets[|packets| - 1].header.numPointsScan
      ensures Points(packets) < TWO32 ==> (IsComplete() <==> Complete(Udp, packets))
    {
      packets != [] && numberOfPoints >= packets[|packets| - 1].header.numPointsScan
    }

    predicate IsDifferentScan(header: Header)
      reads this
      ensures IsDifferentScan(header) <==>
        packets == [] || packets[|packets| - 1].header.scanNumber != header.scanNumber
    {
      !(packets != [] && packets[|packets| - 1].header.scanNumber == header.scanNumber)
    }

    method Clear()
      modifies this
      ensures Valid() && packets == []
    {
      packets, numberOfPoints := [], 0;
    }

    /** Sorts the packets in place, flattens them one by one and empties the factory. */
    method TakeScan() returns (scan: Scan)
      requires Valid()
      modifies this
      ensures Valid() && packets == [] && AssembledFrom(Udp, old(packets), scan)
      ensures exists qs :: SortedPermutation(old(packets), qs) && Concatenates(qs, scan)
    {
      packets := SortByPacketNumber(packets);
      var accumulatedDistances: seq<U32>, accumulatedAmplitudes: seq<U32>, accumulatedHeaders: seq<Header> := [], [], [];
      for i := 0 to |packets|
        invariant accumulatedDistances == AllDistances(packets[..i])
        invariant accumulatedAmplitudes == AllAmplitudes(packets[..i])
        invariant accumulatedHeaders == Headers(packets[..i])
        invariant SortedPermutation(old(packets), packets)
      {
        var packet := packets[i];
        assert packets[..i + 1][..i] == packets[..i];
        accumulatedHeaders := accumulatedHeaders + [packet.header];
        accumulatedDistances := accumulatedDistances + packet.distances;
        accumulatedAmplitudes := accumulatedAmplitudes + packet.amplitudes;
      }
      assert packets[..|packets|] == packets;
      scan := Scan(accumulatedDistances, accumulatedAmplitudes, accumulatedHeaders);
      AssembledInOrder(Udp, old(packets), scan);
      Clear();
    }
  }

  /** std::sort of the packets: callers know only that the result is sorted and has the same packets. */
  method SortByPacketNumber(ps: seq<Packet>) returns (qs: seq<Packet>)
    ensures SortedPermutation(ps, qs)
  {
    qs := [];
    for i := 0 to |ps|
      invariant SortedPermutation(ps[..i], qs)
    {
      hide Sorted;
      qs := Insert(qs, ps[i]);
      assert ps[..i + 1] == ps[..i] + [ps[i]];
    }
    assert ps[..|ps|] == ps;
  }

  method Insert(qs: seq<Packet>, p: Packet) returns (rs: seq<Packet>)
    requires Sorted(qs)
    ensures Sorted(rs) && multiset(rs) == multiset(qs) + multiset{p}
  {
    hide Sorted;
    var k := |qs|;
    while k > 0 && p.header.packetNumber < qs[k - 1].header.packetNumber
      invariant 0 <= k <= |qs|
      invariant k < |qs| ==> p.header.packetNumber < qs[k].header.packetNumber
    {
      k := k - 1;
    }
    rs := qs[..k] + [p] + qs[k..];
    InsertKeepsSorted(qs, k, p);
    assert qs == qs[..k] + qs[k..];
  }

  lemma {:induction false} InsertKeepsSorted(qs: seq<Packet>, k: nat, p: Packet)
    requires Sorted(qs) && k <= |qs|
    requires k > 0 ==> qs[k - 1].header.packetNumber <= p.header.packetNumber
    requires k < |qs| ==> p.header.packetNumber <= qs[k].header.packetNumber
    ensures Sorted(qs[..k] + [p] + qs[k..])
  {
    var rs := qs[..k] + [p] + qs[k..];
    forall i, j | 0 <= i < j < |rs|
      ensures rs[i].header.packetNumber <= rs[j].header.packetNumber
    {
      var low := if i < k then qs[i] else if i == k then p else qs[i - 1];
      var high := if j < k then qs[j] else if j == k then p else qs[j - 1];
      assert rs[i] == low && rs[j] == high;
      assert i < k ==> low.header.packetNumber <= qs[k - 1].header.packetNumber;
      assert j > k ==> qs[k].header.packetNumber <= high.header.packetNumber;
    }
  }
}
