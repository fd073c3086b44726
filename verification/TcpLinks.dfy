/** The TCP link: extraction of everything received, then the size of the next read (include/DataLink/TCPLink.hpp). */
module TcpLinks {
  import opened LittleEndian
  import opened Numbers
  import opened Options
  import opened Data
  import opened PacketExtraction
  import opened ScanAssembly
  import opened ScanFactories
  import opened StreamDecoding

  const DEFAULT_RECEPTION_BUFFER_SIZE: nat := 4096
  const MAX_RECEPTION_BUFFER_SIZE: nat := 32768

  function PacketBytes(hs: seq<Header>): nat {
    if hs == [] then 0 else PacketBytes(hs[..|hs| - 1]) + hs[|hs| - 1].packetSize
  }

  /** The bounded buffer size for a full scan; the sum of the packet sizes is an unsigned 32-bit number. */
  function BufferSizeFor(hs: seq<Header>): (size: nat)
    ensures DEFAULT_RECEPTION_BUFFER_SIZE <= size <= MAX_RECEPTION_BUFFER_SIZE
    ensures PacketBytes(hs) <= MAX_RECEPTION_BUFFER_SIZE ==> PacketBytes(hs) <= size
  {
    Min(MAX_RECEPTION_BUFFER_SIZE, Max(PacketBytes(hs) % TWO32, DEFAULT_RECEPTION_BUFFER_SIZE))
  }

  /** It is the least such size. A sum of 2^32 or more wraps around, and may then ask for too little. */
  lemma {:induction false} BufferSizeIsLeast(hs: seq<Header>, n: nat)
    ensures n >= 4096 && n >= PacketBytes(hs) ==> BufferSizeFor(hs) <= n
    ensures 32768 <= PacketBytes(hs) < 0x1_0000_0000 ==> BufferSizeFor(hs) == 32768
    ensures PacketBytes(hs) < 0x1_0000_0000 ==>
      BufferSizeFor(hs) >= 4096 && (BufferSizeFor(hs) >= PacketBytes(hs) || BufferSizeFor(hs) == 32768)
  {
  }

  lemma {:induction false} WrappedSizeIsTooSmall(h: Header)
    requires h.packetSize == 0x8000_0000
    ensures PacketBytes([h, h]) == 0x1_0000_0000 && BufferSizeFor([h, h]) == 4096
  {
    assert [h, h][..|[h, h]| - 1] == [h] && [h][..|[h]| - 1] == [];
    assert PacketBytes([h]) == PacketBytes([]) + h.packetSize;
  }

  /** The size asked for by the last scan completed since a point of the history. */
  function SizeNeeded(closed: seq<Batch>, since: nat): (size: Option<nat>)
    ensures size.Some? ==> DEFAULT_RECEPTION_BUFFER_SIZE <= size.value <= MAX_RECEPTION_BUFFER_SIZE
  {
    if |closed| <= since then None
    else
      var last := closed[|closed| - 1];
      if last.Emitted? then Some(BufferSizeFor(Headers(last.packets)))
      else SizeNeeded(closed[..|closed| - 1], since)
  }

  /** What a step depends on and changes. No read is scheduled once the link has failed. */
  datatype TcpState = TcpState(buffer: seq<Byte>, history: History, capacity: nat, scheduled: Option<nat>)

  /** After the connection: nothing received, and a first read of exactly the default size. */
  const INITIAL := TcpState([], EMPTY, DEFAULT_RECEPTION_BUFFER_SIZE, Some(DEFAULT_RECEPTION_BUFFER_SIZE))

  /** The next read: what the packet begun still lacks, or else as much as the buffer had room for before the step. */
  function NextRead(missing: nat, capacity: nat): nat {
    if missing != 0 then Min(missing, capacity) else capacity
  }

  function Grown(capacity: nat, needed: Option<nat>): nat {
    if needed.Some? && needed.value > capacity then needed.value else capacity
  }

  /** The step taken when bytes have been received. */
  function Received(s: TcpState, bytes: seq<Byte>): TcpState {
    var all := s.buffer + bytes;
    match Decode(Tcp, all, 0, s.history)
    case Stopped(h, position, missing) =>
      var kept := if position <= |all| then all[position..] else [];
      TcpState(kept, h, Grown(s.capacity, SizeNeeded(h.closed, |s.history.closed|)),
               Some(NextRead(missing, s.capacity)))
    case Threw(h) => TcpState(all, h, s.capacity, None)
    case _ => TcpState(all, s.history, s.capacity, None)
  }

  datatype ConnectionAttempt = Connected | Cancelled | Failed

  class TcpLink {
    var extractionByteBuffer: seq<Byte>
    var receptionCapacity: nat
    var scheduledRead: Option<nat>
    var isConnected: bool
    var connectionLostEvents: nat
    var published: seq<Scan>
    const factory: TcpScanFactory
    ghost var history: History

    ghost predicate Consistent()
      reads this, factory
    {
      && factory.Valid() && factory.packets == history.open
      && Proper(Tcp, history)
      && Publishes(Tcp, history.closed, published)
    }

    ghost predicate Valid()
      reads this, factory
    {
      Consistent() && DEFAULT_RECEPTION_BUFFER_SIZE <= receptionCapacity <= MAX_RECEPTION_BUFFER_SIZE
    }

    ghost function View(): TcpState
      reads this
    {
      TcpState(extractionByteBuffer, history, receptionCapacity, scheduledRead)
    }

    constructor ()
      ensures Valid() && fresh(factory)
      ensures View() == INITIAL.(scheduled := None) && isConnected && published == [] && connectionLostEvents == 0
    {
      extractionByteBuffer, receptionCapacity := [], DEFAULT_RECEPTION_BUFFER_SIZE;
      scheduledRead, isConnected, connectionLostEvents := None, true, 0;
      published, history := [], EMPTY;
      factory := new TcpScanFactory();
    }

    /**
     * The handler of an attempt to connect: the first read is scheduled, or the link is not connected and tries again,
     * or, when the attempt was cancelled, it gives up.
     */
    method OnSocketConnectionAttemptCompleted(outcome: ConnectionAttempt) returns (retry: bool)
      requires Valid()
      modifies this`scheduledRead, this`isConnected
      ensures Valid() && retry == outcome.Failed?
      ensures View() == if outcome.Connected? then old(View()).(scheduled := Some(DEFAULT_RECEPTION_BUFFER_SIZE))
                        else old(View())
      ensures isConnected == (outcome.Connected? || (outcome.Cancelled? && old(isConnected)))
    {
      retry := false;
      match outcome {
        case Connected =>
          isConnected := true;
          scheduledRead := Some(DEFAULT_RECEPTION_BUFFER_SIZE);
        case Cancelled =>
        case Failed =>
          isConnected := false;
          retry := true;
      }
    }

    /** The header of a packet, complete or not, may empty the factory. */
    method ObserveHeader(header: Header)
      requires Consistent()
      modifies this`history, factory
      ensures Consistent() && history == Observe(old(history), header)
      ensures !StartsOver(history.open, header)
    {
      hide Proper, Publishes, Points;
      ObserveKeepsProper(Tcp, history, header);
      if !factory.Empty() && (factory.IsDifferentScan(header) || header.packetNumber == 1) {
        factory.Clear();
        PublishNone(Tcp, history.closed, published, history.open);
        history := Observe(history, header);
      }
    }

    /** A packet is stored, and the scan it completes, if any, is published. */
    method AcceptPacket(packet: Packet, needed: Option<nat>, ghost since: nat) returns (needed': Option<nat>)
      requires Consistent() && !StartsOver(history.open, packet.header)
      requires since <= |history.closed| && needed == SizeNeeded(history.closed, since)
      modifies this`history, this`published, factory
      ensures Consistent() && history == Feed(Tcp, old(history), packet)
      ensures old(published) <= published
      ensures since <= |history.closed| && needed' == SizeNeeded(history.closed, since)
    {
      FeedKeepsProper(Tcp, history, packet);
      factory.AddPacket(packet.header, packet.distances, packet.amplitudes);
      needed' := needed;
      ghost var open := factory.packets;
      if factory.IsComplete() {
        needed' := Some(BufferSizeFor(factory.headers));
        var scan := factory.TakeScan();
        PublishOne(Tcp, history.closed, published, open, scan);
        published := published + [scan];
      }
      history := Feed(Tcp, history, packet);
    }

    /** tryExtractingScanFromByteRange, over the whole extraction buffer. */
    method TryExtractingScan() returns (position: nat, missing: U32, needed: Option<nat>, threw: bool)
      requires Consistent() && |extractionByteBuffer| < TWO32
      requires Runs(Decode(Tcp, extractionByteBuffer, 0, history))
      modifies this`history, this`published, factory
      ensures Consistent()
      ensures old(published) <= published
      ensures var d := Decode(Tcp, extractionByteBuffer, 0, old(history));
        && history == d.history && (threw <==> d.Threw?)
        && (d.Stopped? ==> position == d.position <= |extractionByteBuffer| && missing == d.missing
                           && needed == SizeNeeded(history.closed, |old(history).closed|))
    {
      ghost var since := |history.closed|;
      ghost var d := Decode(Tcp, extractionByteBuffer, 0, history);
      position, missing, needed, threw := 0, 0, None, false;
      while true
        invariant Consistent() && position <= |extractionByteBuffer|
        invariant Decode(Tcp, extractionByteBuffer, position, history) == d
        invariant old(published) <= published
        invariant since <= |history.closed| && needed == SizeNeeded(history.closed, since)
        decreases |extractionByteBuffer| - position
      {
        hide Decode, ExtractFrom, Feed, Observe;
        DecodeStep(Tcp, extractionByteBuffer, position, history);
        var e := ExtractScanPacket(extractionByteBuffer, position);
        match e
        case NothingFound =>
          assert !factory.IsComplete();  // so the test made here too publishes nothing
          position, missing := |extractionByteBuffer|, 0;
          return;
        case Incomplete(start, header, lacking) =>
          ObserveNeedsNothing(history, header, since);
          ObserveHeader(header);
          assert !factory.IsComplete();
          position, missing := start, lacking;
          return;
        case Unsupported(header) =>
          ObserveHeader(header);
          threw := true;
          return;
        case Extracted(next, packet) =>
          ObserveNeedsNothing(history, packet.header, since);
          EarlyClearCommutes(Tcp, history, packet);
          ObserveHeader(packet.header);
          needed := AcceptPacket(packet, needed, since);
          position := next;
      }
    }

    method RemoveUsedBytes(position: nat)
      requires position <= |extractionByteBuffer|
      modifies this`extractionByteBuffer
      ensures extractionByteBuffer == old(extractionByteBuffer)[position..]
    {
      var remainingBytes := |extractionByteBuffer| - position;
      extractionByteBuffer := if remainingBytes != 0 then extractionByteBuffer[position..] else [];
    }

    method ResizeBuffers(newSize: nat)
      modifies this`receptionCapacity
      ensures receptionCapacity == Grown(old(receptionCapacity), Some(newSize))
    {
      if newSize > receptionCapacity {
        receptionCapacity := newSize;
      }
    }

    /**
     * The handler of a read. The bytes are those at the front of the reception buffer; the read size is computed
     * from the capacity that the buffer had before it grows.
     */
    method OnBytesReceived(error: bool, bytes: seq<Byte>)
      requires Valid()
      requires !error ==> |extractionByteBuffer + bytes| < TWO32
                          && Runs(Decode(Tcp, extractionByteBuffer + bytes, 0, history))
      modifies this, factory
      ensures Valid() && old(published) <= published
      ensures error ==> View() == old(View()).(scheduled := None) && published == old(published)
      ensures error ==> !isConnected && connectionLostEvents == old(connectionLostEvents) + 1
      ensures !error ==> View() == Received(old(View()), bytes)
      ensures !error ==> isConnected == old(isConnected) && connectionLostEvents == old(connectionLostEvents)
    {
      hide Decode, Proper;
      scheduledRead := None;
      if error {
        isConnected := false;
        connectionLostEvents := connectionLostEvents + 1;
        return;
      }
      extractionByteBuffer := extractionByteBuffer + bytes;
      var position, missing, needed, threw := TryExtractingScan();
      if threw {
        return;
      }
      RemoveUsedBytes(position);
      var numberOfBytesToTransfer := if missing != 0 then Min(missing, receptionCapacity) else receptionCapacity;
      if needed.Some? {
        ResizeBuffers(needed.value);
      }
      scheduledRead := Some(numberOfBytesToTransfer);
    }
  }

  /** A discarded batch asks for no buffer. */
  lemma {:induction false} ObserveNeedsNothing(h: History, header: Header, since: nat)
    requires since <= |h.closed|
    ensures since <= |Observe(h, header).closed|
    ensures SizeNeeded(Observe(h, header).closed, since) == SizeNeeded(h.closed, since)
  {
    assert (h.closed + [Discarded(h.open)])[..|h.closed|] == h.closed;
    if since == |h.closed| {
      assert SizeNeeded(h.closed, since) == None;
    }
  }
}
