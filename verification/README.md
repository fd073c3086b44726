# R2000 driver: a verified model

The R2000 driver receives laser scans from a rangefinder over TCP or UDP, sends it HTTP commands, and watches whether
it is still there. This project models the parts of the driver that carry state from one event to the next, and proves
what holds over every stream of bytes, every order of arrival and every interleaving. `dafny verify dfyconfig.toml`
checks all of it.

The scan path, from bytes to published scans:

- `LittleEndian`, `Data`, `Payload`: integers, header fields and the three point layouts, with the loops that read
  them and the device's side that writes them.
- `PacketExtraction`: finding one packet in a range of bytes. `ExtractFrom` says what is found, for all bytes;
  `WellFormed` says what the device sends.
- `ScanAssembly`, `ScanFactories`: what the factories do, on values (`Feed`, a history of closed batches and the open
  one) and as the two classes that update their vectors in place.
- `StreamDecoding`: the extraction loop (`Decode`), with its four ways to end or not to end.
- `Streams`: whole streams of well-formed packets and their first n bytes, for both transports.
- `TcpLinks`, `TcpRuns`, `TcpCapacity`: the TCP link as a class and as a transition system, then its whole runs over a
  stream, and the growth of its buffer.
- `TcpRecovery`, `TcpLosses`: what follows when the beginning of a packet has been dropped, step by step, and then over
  whole runs: which packets are lost and which reads are undefined, by where the reads end.
- `UdpLinks`: the same for UDP, from the zero-filled buffer to the scan published.
- `Reassembly`: whole scans, in and out of order, after losses, and over the two transports.

Around it: `ScanPublication` (the waiting threads), `Workers` (the job queue), `AsyncCommands` (the asynchronous
commands), `StatusWatching` (the connection hysteresis), `Requests` (request paths and name lists). `Options`,
`Numbers` and `Sequences` hold what the others share.

In these modules a class has the fields of the original and its methods change them; each method is proved to take the
view of the object to what a function of the old view says, and the theorems are about runs of that function.

## How the code is read

- Sections that open with a lock guard built with `std::adopt_lock` (for instance include/Worker.hpp:47 and
  include/Worker.hpp:92) adopt a mutex that nobody has locked. The critical section they intend is modelled: each is
  one atomic step.
- Extraction of a packet and its effect on the factory are separate members, because the effect comes in two parts: the
  header may empty the factory before it is known whether the packet is complete or of a supported type
  (include/DataLink/DataLink.hpp:443-449). This order is kept, also on the path that throws.
- Unsigned 32-bit sizes and counts wrap where the original's do. Shifts and bitwise ors of separate bytes are written
  as sums.
- Reads past the end of a range are undefined behaviour in the original. They are an outcome of the specification
  (`OutOfRange`, `Undefined`), and so is the loop that never ends (`Endless`). The methods require that their bytes
  lead to neither: `StreamDecoding.RunsIff` says which bytes these are. Datagrams of well-formed packets are among them
  (`UdpLinks.DatagramOfPackets`), and so are the bytes of a well-formed stream over TCP as long as no short tail has been
  dropped (`TcpRuns.BufferIsBounded`). After one they need not be.
- The two factories share one specification with a `Transport` parameter. They differ only in whose header decides
  that a scan is complete and in whether the packets are sorted.

## Where the code does less than it says

Each of these is kept as the code has it; the named lemmas say exactly when the promise is met and, where that does not
show it by itself, an input for which it is not.

- A tail of 1 to 79 bytes of the next packet is dropped, not kept for the next read: the guard compares with the size
  of the header in memory, 80 bytes, though 76 are decoded. `TcpRuns.NothingLostIffNoShortTail` is the condition, and
  `TcpRuns.ShortTailLosesBytes` a stream whose very first read loses 20 bytes.
- Bytes of a well-formed stream, read as scheduled, can make the link read past the end of its buffer. After a short
  tail the rest of that packet is a gap before the next one; the length of the buffer is tested from its beginning, but
  the header is decoded from the magic word behind the gap. `StreamDecoding.UndefinedIffReachesOverread` has the
  condition for all bytes. For a well-formed stream `TcpLosses.UndefinedBehindLost` has it in terms of where the reads
  end, 2 to 75 bytes behind a lost packet, and `TcpLosses.PublishesAllButLost` has what all other runs come to: the
  packets lost are exactly those that a read ends 1 to 79 bytes into (only 1 to 75 right behind another lost packet),
  and the scans published are those of all the others. Both are about streams in which no packet seems to start in what
  still comes of a packet cut off. `TcpRecovery.SecondReadIsUndefined` has a stream whose second scheduled read is
  undefined.
- The reception buffer is meant to contain a full scan (include/DataLink/TCPLink.hpp:232-233), but of the scans that one
  read completes only the last counts. `TcpCapacity.CapacityIsTheLargest` says what the capacity is in every run,
  `TcpCapacity.RoomForAllIff` when a read leaves room for all it completes, and `TcpCapacity.SmallScanHidesLarger` has a
  run in which it does not. Sizes that add up to 2^32 wrap around: `TcpLinks.WrappedSizeIsTooSmall`.
- The zeros with which the UDP link starts are harmless before whole packets, but not before part of one:
  `UdpLinks.FirstDatagramBehindZeros`.
- Reassembly is announced for transports without order of reception (include/DataLink/DataLink.hpp:305-309), but packet
  1 always empties a factory that holds packets. `Reassembly.OrderOfArrival` shows that a whole scan comes out if and
  only if its packet 1 comes first, and `Reassembly.ReorderedScanIsLost` is the smallest scan that does not.
- The extraction loop never ends on a packet that takes no byte: `StreamDecoding.EndsUnlessEmptyPacket`, with the bytes
  of `StreamDecoding.EmptyPacketIsEndless`.
- The loop over points of type B tests for 4 remaining bytes, not the 6 that its documentation states and that it
  reads. `Payload.OverrunsExactlyOutOfRange` derives from the guard when it reads too far, and
  `Payload.FourBytesOverrun` has the inputs.
- The worker accepts `maxJob + 1` waiting jobs, its guard being `<=`: `Workers.MaximumIsExceeded` for every maximum, and
  `Workers.ExceedsOnlyWhenFull` for the one step that does it.
- A disconnection threshold of 2^32 or more is never reached by the 32-bit count:
  `StatusWatching.ConnectedWhileFewFailures`, and for the runs `StatusWatching.ThresholdReached`.
- A command without parameters loses an ampersand at its end: `Requests.BareRequestRoundTrip`.
- The result of a failed resolution, an empty list of endpoints, is stored like any other:
  `AsyncCommands.ResolvesUntilFirstCompletion` shows that a command resolves if and only if no resolution has completed
  before, `AsyncCommands.FailedResolutionIsFinal` that a device cut off in this way never replies to a command again,
  and `AsyncCommands.FirstFailureCutsOff` that one failure is enough.
- A thread that waits for a scan while the link is destroyed is promised none (include/DataLink/DataLink.hpp:506-513),
  but returns the last one. `ScanPublication.NoCountIsMissed` says when a thread can go on at all,
  `ScanPublication.NewerIffStored` when the scan it then returns is newer than those counted before it waited, and
  `ScanPublication.InterruptionReturnsAnOldScan` has a run in which it is not.
- `Scan::isComplete` is documented to compare the number of points for equality (include/DataLink/Data.hpp:287-290), but
  accepts more. `Reassembly.EmittedScanIsExact` shows that a scan has exactly the points announced if and only if some of
  its packets received first have, and `ScanAssembly.ScanMayOvershoot` one that has more.

The header is documented to default to 60 bytes (include/DataLink/Data.hpp:203); since 76 are decoded, well-formed
packets have at least 76.

## Model

| member | source | states |
|---|---|---|
| Data.InterpretU16 | include/DataLink/Data.hpp:66-82 | The value read is the one whose two-byte encoding, low byte first, is what was passed over. |
| Data.InterpretU32 | include/DataLink/Data.hpp:88-107 | The value read is the one whose four-byte encoding, low byte first, is what was passed over. |
| Data.InterpretI32 | include/DataLink/Data.hpp:113-133 | The two's-complement value of that word, though the sign enters by the highest byte alone. |
| Data.InterpretU64 | include/DataLink/Data.hpp:139-161 | The 64-bit word made of two 32-bit halves; the position moves by 8. |
| LittleEndian.LowestByteFirst | include/DataLink/Data.hpp:66-161 | Given bytes and the numbers of 16, 32 and 64 bits they stand for, and the negative ones of 32. |
| Data.FromByteRange | include/DataLink/Data.hpp:172-195 | Nineteen reads that advance one after the other put every field on its offset in the 76-byte wire layout. |
| Data.FieldsOnTheWire | include/DataLink/Data.hpp:175-193 | The bytes that each of the nineteen fields is read from, in order and without a gap, on a header whose bytes count up. |
| Data.HeaderRoundTrip | include/DataLink/Data.hpp:172-236 | Decoding the device's bytes for any header, signed fields included, gives that header, whatever bytes follow. |
| Data.HeaderAtWindow | include/DataLink/Data.hpp:172-195 | The decoded header depends on its 76 bytes only, wherever they stand. |
| Payload.Retrieve32BitsUnsignedIntegers | include/DataLink/DataLink.hpp:107-127 | Stops after the points asked for or as many as the bytes hold, right behind the last one, having delivered each as its layout reads it. |
| Payload.Retrieve48BitsUnsignedIntegers | include/DataLink/DataLink.hpp:143-167 | The same for points of 6 bytes, for the ranges on which the guard of 4 bytes never lets it read outside. |
| Payload.OverrunsExactlyOutOfRange | include/DataLink/DataLink.hpp:154-164 | These are exactly those ranges: some turn that the guard allows starts with fewer than 6 bytes if and only if the points asked for are not all there and 4 or 5 bytes are left behind the whole points. |
| Payload.FourBytesOverrun | include/DataLink/DataLink.hpp:154-164 | Any number of whole points and 4 bytes, with one point more asked for, is read too far. |
| Payload.RetrievePayload | include/DataLink/DataLink.hpp:191-296 | The three decoders: the two vectors hold distance and amplitude of the same points, and the position is behind the last. |
| Payload.DeliversAllThatFit | include/DataLink/DataLink.hpp:94-142 | The points delivered are all that were asked for, or so many that one more would not fit in the bytes. |
| Payload.LosslessUnlessInvalid | include/DataLink/DataLink.hpp:191-296 | For all words of all layouts, the 20/12-bit split included: a reading encodes back to its own bytes if and only if it is not the sentinel, and the sentinel gives distance 0. |
| Payload.PointRoundTrip | include/DataLink/DataLink.hpp:191-296 | Every point that a layout can carry is read back from its bytes. |
| Payload.PointsRoundTrip | include/DataLink/DataLink.hpp:107-167 | Every list of such points is read back from the bytes of the list, which have 4, 6 or 4 bytes a point. |
| Payload.PointsAtWindow | include/DataLink/DataLink.hpp:107-167 | Points depend on their own bytes only, wherever these stand. |
| PacketExtraction.FirstMagic | include/DataLink/DataLink.hpp:46-54 | What the search promises: the first magic word, and none only if there is none from the beginning on. |
| PacketExtraction.RetrievePacketMagic | include/DataLink/DataLink.hpp:55-68 | The loop up to the last byte but one finds that first magic word. |
| PacketExtraction.RetrievePacketHeader | include/DataLink/DataLink.hpp:80-92 | Nothing is found if and only if fewer than 80 bytes are left or no magic word is in them; otherwise the header is that at the first magic word. |
| PacketExtraction.ExtractScanPacket | include/DataLink/DataLink.hpp:424-485 | On all bytes that keep it in range: nothing, an incomplete packet with its missing bytes, a packet, or the exception, as the specification says. |
| PacketExtraction.ExtractionAdvances | include/DataLink/DataLink.hpp:437-484 | A success uses up everything through the last point delivered, and uses up nothing exactly for a header of no size at once with no point. |
| PacketExtraction.WellFormedIsExtracted | include/DataLink/DataLink.hpp:431-484 | A well-formed packet at the read position is extracted up to exactly its last byte, whatever follows. |
| PacketExtraction.PartIsIncomplete | include/DataLink/DataLink.hpp:440-450 | Any 80 bytes or more of one are reported incomplete, with its start and exactly the number of bytes that lack. |
| PacketExtraction.WellFormedBytes | include/DataLink/DataLink.hpp:43 | A well-formed packet starts with the bytes 5C A2, is of type 41, 42 or 43, and has at least 80 bytes. |
| PacketExtraction.PointsOfTypeA | include/DataLink/DataLink.hpp:191-221 | From bytes to points, for type 41: every 32-bit word is a distance, all ones standing for 0, and amplitudes are 0. |
| PacketExtraction.PointsOfTypeB | include/DataLink/DataLink.hpp:227-258 | For type 42: 32 bits of distance and 16 of amplitude, every 6 bytes. |
| PacketExtraction.PointsOfTypeC | include/DataLink/DataLink.hpp:264-296 | For type 43: the low 20 bits are the distance, all ones standing for 0, and the high 12 the amplitude. |
| PacketExtraction.UnsupportedIffOtherType | include/DataLink/DataLink.hpp:456-482 | A packet that is all there by its sizes is refused if and only if its type is none of these three. |
| PacketExtraction.UndersizedIsIncomplete | include/DataLink/DataLink.hpp:440-450 | A packet smaller than its header is never all there: 2^32 less the difference is said to be missing. |
| PacketExtraction.PacketRoundTrip | include/DataLink/DataLink.hpp:424-485 | Header, padding and points of any layout, as the device writes them, are well formed and decode to the same header and points. |
| ScanAssembly.EarlyClearCommutes | include/DataLink/DataLink.hpp:443-450 | Seeing a header early, when its packet is still incomplete, and feeding the packet later comes to the same as feeding it at once. |
| ScanAssembly.FeedAllAppend | include/DataLink/TCPLink.hpp:241-255 | Feeding packets in two lots comes to the same as feeding them in one. |
| ScanAssembly.FeedAllConserves | include/DataLink/DataLink.hpp:443-483 | Over any packets, each ends up exactly once, and in order, in an emitted batch, a discarded batch or the factory. |
| ScanAssembly.ReachableIsProper | include/DataLink/DataLink.hpp:443-483 | In every reachable state the factory holds one scan only, packet 1 only in front, and is not complete; emitted batches became complete with their last packet; discarded ones never were. |
| ScanAssembly.VectorsAgree | include/DataLink/TCPLink.hpp:54-59 | Distances and amplitudes are as many as the stored headers announce. |
| ScanAssembly.AssembleConcatenates | include/DataLink/UDPLink.hpp:88-97 | In an assembled scan the header, the distances and the amplitudes of every packet stand at their own place: behind those of exactly the packets before it. |
| ScanAssembly.AssembledInOrder | include/DataLink/TCPLink.hpp:77-82 | So does every packet of a published scan: in order of reception over TCP, of packet numbers over UDP. |
| ScanAssembly.WhoseHeaderDecides | include/DataLink/UDPLink.hpp:65-67 | When packets do not agree on the size of their scan, TCP goes by the first received and UDP by the last. |
| ScanAssembly.SortIsUnique | include/DataLink/UDPLink.hpp:75-81 | With distinct packet numbers any sorted permutation is the same, so the sort need not be stable. |
| ScanAssembly.PointsOfPermutation | include/DataLink/UDPLink.hpp:44-68 | The number of points does not depend on the order of arrival. |
| ScanAssembly.EmittedScanIsComplete | include/DataLink/Data.hpp:287-293 | Every emitted scan satisfies `Scan::isComplete` and is minimal: without its last packet received it had fewer points (over UDP, when the packets agree on the size of the scan). |
| ScanAssembly.ScanMayOvershoot | include/DataLink/Data.hpp:287-293 | Two packets of two points for a scan of three are emitted as a scan of four, over both transports. |
| ScanFactories.TcpScanFactory.constructor | include/DataLink/TCPLink.hpp:46 | Starts with no packet. |
| ScanFactories.TcpScanFactory.AddPacket | include/DataLink/TCPLink.hpp:54-59 | The three vectors stay the flattening, in order of reception, of the packets added. |
| ScanFactories.TcpScanFactory.Empty | include/DataLink/TCPLink.hpp:64 | True if and only if no packet was added since the last clear. |
| ScanFactories.TcpScanFactory.IsComplete | include/DataLink/TCPLink.hpp:66-71 | True if and only if the packets hold as many points as the first of them announces for the scan. |
| ScanFactories.TcpScanFactory.IsDifferentScan | include/DataLink/DataLink.hpp:346-353 | True if and only if the factory is empty or the last packet stored is of another scan. |
| ScanFactories.TcpScanFactory.Clear | include/DataLink/TCPLink.hpp:87-91 | Forgets all packets. |
| ScanFactories.TcpScanFactory.TakeScan | include/DataLink/TCPLink.hpp:77-82 | Every packet stands in the scan at its own place, in order of reception; the factory is left empty. |
| ScanFactories.UdpScanFactory.constructor | include/DataLink/UDPLink.hpp:36 | Starts with no packet and no point. |
| ScanFactories.UdpScanFactory.AddPacket | include/DataLink/UDPLink.hpp:44-52 | The packet is stored last, and the 32-bit count stays the number of points stored. |
| ScanFactories.UdpScanFactory.Empty | include/DataLink/UDPLink.hpp:57 | True if and only if no packet is stored. |
| ScanFactories.UdpScanFactory.IsComplete | include/DataLink/UDPLink.hpp:62-68 | True if and only if the points held, counted modulo 2^32, are as many as the last packet announces. |
| ScanFactories.UdpScanFactory.IsDifferentScan | include/DataLink/UDPLink.hpp:117-128 | True if and only if the factory is empty or the last packet received is of another scan. |
| ScanFactories.UdpScanFactory.Clear | include/DataLink/UDPLink.hpp:108-111 | Forgets all packets and their points. |
| ScanFactories.UdpScanFactory.TakeScan | include/DataLink/UDPLink.hpp:74-103 | Every packet stands in the scan, header, distances and amplitudes, at its own place in the order of packet numbers; the factory is left empty. |
| ScanFactories.SortByPacketNumber | include/DataLink/UDPLink.hpp:75-81 | The same packets, by non-decreasing packet number. |
| StreamDecoding.DecodePackets | include/DataLink/TCPLink.hpp:241-255 | The loop goes through well-formed packets by exactly their sizes and feeds each of them, whatever follows. |
| StreamDecoding.DecodeTail | include/DataLink/DataLink.hpp:431-450 | Of a last partial packet, fewer than 80 bytes are given up and 80 or more are kept, with the exact number missing. |
| StreamDecoding.DecodeKeepsProper | include/DataLink/TCPLink.hpp:241-255 | On any bytes at all, also when it throws, the loop leaves a reachable factory that is not complete. |
| StreamDecoding.EndsUnlessEmptyPacket | include/DataLink/UDPLink.hpp:215-225 | The loop fails to end if and only if it reaches a magic word with a header of no size and no point. |
| StreamDecoding.EmptyPacketIsEndless | include/DataLink/UDPLink.hpp:215-225 | An encoded header of no size and no point, and four bytes after it, are such bytes. |
| StreamDecoding.UndefinedIffReachesOverread | include/DataLink/DataLink.hpp:80-92 | On any bytes at all, the loop reads past their end if and only if, going from packet to packet, it comes to a magic word with fewer than 76 bytes left, or to a packet of type B that by its sizes is all there, announces too many points and leaves 4 or 5 bytes over. |
| StreamDecoding.RunsIff | include/DataLink/TCPLink.hpp:241-255 | The loop ends without reading past its bytes if and only if it comes neither there nor to an empty packet: the demand of the handlers, as a condition on the bytes alone. |
| StreamDecoding.PrefixIsSkipped | include/DataLink/DataLink.hpp:55-92 | Bytes in which no magic word starts, also across their end, do not change what is decoded, if 80 bytes follow. |
| TcpLinks.BufferSizeFor | include/DataLink/TCPLink.hpp:276-291 | Between 4096 and 32768 bytes, and enough for all the packets if 32768 are. |
| TcpLinks.BufferSizeIsLeast | include/DataLink/TCPLink.hpp:276-291 | It is the least such size, and 32768 if more were needed, as long as the 32-bit sum does not wrap. |
| TcpLinks.WrappedSizeIsTooSmall | include/DataLink/TCPLink.hpp:286-289 | Packets of 2^32 bytes together ask for 4096. |
| TcpLinks.TcpLink.constructor | src/DataLink/TCPLink.cpp:25-30 | Nothing received, a reception buffer of 4096 bytes, and no read scheduled yet. |
| TcpLinks.TcpLink.OnSocketConnectionAttemptCompleted | src/DataLink/TCPLink.cpp:59-83 | With a connection the first read is scheduled, of exactly 4096 bytes; after a failure the link is not connected and resolves again; after a cancellation nothing changes. |
| TcpLinks.TcpLink.ObserveHeader | include/DataLink/DataLink.hpp:443-445 | Empties the factory exactly when it holds packets and the header is of another scan or of packet 1; nothing is published. |
| TcpLinks.TcpLink.AcceptPacket | include/DataLink/TCPLink.hpp:246-251 | Stores the packet; a scan it completes is published once, and its buffer size is asked for. |
| TcpLinks.TcpLink.TryExtractingScan | include/DataLink/TCPLink.hpp:235-261 | History, position, missing bytes and buffer size asked for are those of decoding the whole buffer; the scans published are those of the batches emitted. |
| TcpLinks.TcpLink.RemoveUsedBytes | include/DataLink/TCPLink.hpp:209-217 | Keeps exactly the bytes from the position on. |
| TcpLinks.TcpLink.ResizeBuffers | include/DataLink/TCPLink.hpp:268-274 | The capacity never shrinks, and has at least the size asked for. |
| TcpLinks.TcpLink.OnBytesReceived | src/DataLink/TCPLink.cpp:85-112 | One step of the transition system: buffer, history, capacity and next read are as specified, the read being computed from the capacity before it grows; an error only disconnects. |
| Streams.SplitAt | include/DataLink/DataLink.hpp:447-450 | The first n bytes of a stream are whole packets and then a proper part of the next. |
| Streams.DecodeStream | include/DataLink/TCPLink.hpp:235-261 | Decoding the first n bytes of a stream, from any position and any history, feeds the whole packets, sees the header of the next if 80 bytes of it are there, and stops at the boundary, or behind a short tail. |
| Streams.HistoryContinues | include/DataLink/DataLink.hpp:443-450 | Decoding up to n and on from what was kept gives the history of decoding all at once, though the factory may have been emptied in between. |
| TcpRuns.StartsAligned | src/DataLink/TCPLink.cpp:59-70 | The state after the connection is aligned with the beginning of any stream. |
| TcpRuns.StepOnStream | src/DataLink/TCPLink.cpp:96-111 | From an aligned state any next bytes of the stream give the whole-stream history, keep exactly the bytes of the packet begun (a short tail is lost) and schedule the next read. |
| TcpRuns.StaysAligned | src/DataLink/TCPLink.cpp:96-111 | A read that leaves no short tail leads from an aligned state to an aligned state. |
| TcpRuns.RunStaysAligned | src/DataLink/TCPLink.cpp:85-112 | So every run without short tails stays aligned. |
| TcpRuns.NothingLostIffNoShortTail | include/DataLink/DataLink.hpp:82-85 | However a stream is cut into reads, the buffer always holds exactly what no packet has used up, if and only if no read ends 1 to 79 bytes into a packet. |
| TcpRuns.IncrementalRefinesWhole | include/DataLink/TCPLink.hpp:235-261 | Main theorem: after any reads without short tails, the scans published are exactly those of feeding all packets received completely in one go, and the buffer is the rest of the stream. |
| TcpRuns.MissingIsTheRest | include/DataLink/DataLink.hpp:447-450 | What is reported missing leads exactly to the end of the packet begun, and is never zero. |
| TcpRuns.LessIsMissing | include/DataLink/DataLink.hpp:447-450 | Reading on inside a packet lessens what is missing by as much, and leaves no short tail. |
| TcpRuns.ReadsNeverOvershoot | include/DataLink/TCPLink.hpp:256-259 | The read scheduled inside a packet is of at least 1 byte and does not pass its end; it reaches it if and only if it is all that is missing. |
| TcpRuns.LandsOnTheBoundary | include/DataLink/TCPLink.hpp:256-260 | The scheduled reads after a partial packet add up to exactly its missing bytes, after which the buffer is empty, in no more reads than buffers of 4096 bytes take. |
| TcpRuns.OnlyFullReadsLoseBytes | include/DataLink/TCPLink.hpp:256-259 | A scheduled read can leave a short tail only if it starts at a packet boundary with an empty buffer and is of 4096 bytes or more. |
| TcpRuns.BufferIsBounded | src/DataLink/TCPLink.cpp:96-111 | From aligned states, the extraction buffer and the next read never exceed the larger of the largest packet and 32768 bytes, and the next bytes of the stream meet the demands of the handler. |
| TcpRuns.AnyRunIsBounded | include/DataLink/TCPLink.hpp:268-274 | On any bytes at all, the capacity never shrinks and stays in 4096 to 32768, and reads stay between 1 byte and the capacity. |
| TcpRuns.AnyStepIsBounded | include/DataLink/TCPLink.hpp:209-217 | On any bytes at all, what is kept is a suffix of the old buffer and the bytes received. |
| TcpRuns.BufferGrowsToTheScan | include/DataLink/TCPLink.hpp:276-291 | After a scan, the reception buffer has room for all its packets if 32768 bytes are enough. |
| TcpRuns.OtherTypeStopsTheLink | include/DataLink/DataLink.hpp:476-481 | After a packet of another type, complete by its sizes, what came before it is fed, everything stays in the buffer and no read is scheduled any more. |
| TcpCapacity.CapacityAfterRead | src/DataLink/TCPLink.cpp:101-106 | After a read of any bytes the capacity is the larger of what it was and the size for the last scan that the read completed. |
| TcpCapacity.NothingEmittedAfter | include/DataLink/TCPLink.hpp:246-251 | That scan is the one emitted by the read after which it emitted no other. |
| TcpCapacity.CapacityIsTheLargest | src/DataLink/TCPLink.cpp:101-106 | Over any reads of any bytes it is exactly the largest of what it was and the sizes for the scans that were the last of their read. |
| TcpCapacity.CapacityFromConnection | include/DataLink/TCPLink.hpp:268-291 | From the connection on: exactly the largest of 4096 and those sizes, and never more than 32768. |
| TcpCapacity.RoomForAllIff | include/DataLink/TCPLink.hpp:246-251 | A read leaves room for all scans it completes if and only if none of them needs more than the capacity before and than the last of them. |
| TcpCapacity.RoomForEveryScan | include/DataLink/TCPLink.hpp:246-251 | If no read completes two scans, there is room for every scan completed so far. |
| TcpCapacity.SmallScanHidesLarger | include/DataLink/TCPLink.hpp:246-251 | Two scheduled reads, the second completing a scan of 4176 bytes and a smaller one: the capacity stays at 4096. |
| TcpCapacity.PacketBytesAreBytes | include/DataLink/TCPLink.hpp:286-289 | The sizes added up are those of the packets themselves. |
| TcpRuns.ShortTailLosesBytes | include/DataLink/DataLink.hpp:82-85 | Two packets of 4076 bytes and the first scheduled read: 20 bytes that had been received are gone. |
| Streams.DecodeBehind | include/DataLink/DataLink.hpp:80-92 | The loop over a gap in which no packet seems to start and any number of bytes behind it: it finds nothing, reads past the end, holds a header, or decodes the stream behind the gap; it reads past the end if and only if there are 80 bytes to search and 2 to 75 of them behind the gap. |
| TcpRecovery.CutStream | include/DataLink/DataLink.hpp:431-434 | What is to come after a packet was cut off is the gap and then the stream without that packet, from the same boundary. |
| TcpRecovery.DroppedIsSkipping | include/DataLink/DataLink.hpp:431-434 | A link that has dropped the beginning of a packet is aligned with the stream without that packet, a gap ahead. |
| TcpRecovery.StepInGap | src/DataLink/TCPLink.cpp:96-111 | A read that ends inside the gap only shortens it. |
| TcpRecovery.StepPastGap | src/DataLink/TCPLink.cpp:96-111 | A read of 80 bytes or more that ends behind the gap is undefined if and only if it ends 2 to 75 bytes behind; otherwise the history is that of the packets without the one cut off. |
| TcpRecovery.HeldContinues | include/DataLink/DataLink.hpp:443-450 | Decoding on from a header of 76 to 79 bytes held behind a gap gives the history of decoding all at once. |
| TcpRecovery.UndefinedIffOverreads | include/DataLink/DataLink.hpp:80-92 | In every state aligned with a stream, holding a header, or behind a gap in which no packet seems to start, a scheduled read leads to undefined behaviour if and only if it ends 2 to 75 bytes behind a gap. |
| TcpRecovery.StepFollows | src/DataLink/TCPLink.cpp:85-112 | Any other scheduled read leaves such a state again, of the same stream; or, when it drops a short tail and no packet seems to start in the rest of that packet, of the stream without it. |
| TcpRecovery.ShortTailIsOfALaterPacket | include/DataLink/TCPLink.hpp:256-259 | Without a gap, a scheduled read never ends 1 to 79 bytes into the packet it starts in. |
| TcpRecovery.SecondReadIsUndefined | include/DataLink/DataLink.hpp:82-90 | Three packets of 4076 bytes and the first two scheduled reads: the second decodes a header of which only 40 bytes are there. |
| TcpLosses.UndefinedIffEndsInHeader | include/DataLink/DataLink.hpp:80-92 | In every state that tracks the stream, the next read is undefined if and only if it starts inside a lost packet and ends 2 to 75 bytes behind it. |
| TcpLosses.CutIffLost | include/DataLink/DataLink.hpp:82-85 | A read that ends behind the gap leaves the link inside a lost packet, by the rule on where reads end, exactly when the link drops a short tail. |
| TcpLosses.RunTracks | src/DataLink/TCPLink.cpp:85-112 | Every scheduled run that stays defined leaves the state that is a function of the stream and of where the reads have ended: that of the stream without the packets lost. |
| TcpLosses.PublishesAllButLost | src/DataLink/TCPLink.cpp:85-112 | Main theorem for streams read as scheduled, if no packet seems to start in what still comes of a packet after a read has ended 1 to 79 bytes into it: in every defined run the scans published are exactly those of the packets received whole and not lost, fed in order. A packet is lost if and only if a read ends 1 to 75 bytes into it, or 76 to 79 and the packet before it is not lost. |
| TcpLosses.UndefinedBehindLost | include/DataLink/DataLink.hpp:80-92 | In every such run the next read is undefined if and only if it starts inside a lost packet and ends 2 to 75 bytes behind it. |
| TcpLosses.AtMostOnePerRead | include/DataLink/DataLink.hpp:431-434 | A read loses at most one packet. |
| UdpLinks.UdpLink.constructor | src/DataLink/UDPLink.cpp:25-64 | The extraction buffer holds 98302 zeros; the link is connected and listens if and only if its socket could be set up. |
| UdpLinks.UdpLink.ObserveHeader | include/DataLink/DataLink.hpp:443-445 | Empties the factory exactly when it holds packets and the header is of another scan or of packet 1; nothing is published. |
| UdpLinks.UdpLink.AcceptPacket | include/DataLink/UDPLink.hpp:216-221 | Stores the packet; a scan it completes is sorted and published once. |
| UdpLinks.UdpLink.TryExtractingScan | include/DataLink/UDPLink.hpp:212-227 | History and position are those of decoding the whole buffer; the scans published are those of the batches emitted. |
| UdpLinks.UdpLink.OnBytesReceived | src/DataLink/UDPLink.cpp:67-89 | One step of the transition system; an error only disconnects and ends the listening. |
| UdpLinks.CountDoesNotWrap | include/DataLink/UDPLink.hpp:46 | In reachable states the 32-bit count of points is exact when it is tested. |
| UdpLinks.ZerosHoldNoMagic | src/DataLink/UDPLink.cpp:28 | In zeros none does, whatever follows them. |
| UdpLinks.DatagramOfPackets | src/DataLink/UDPLink.cpp:78-84 | A datagram of whole packets feeds each of them in order and is used up, the zeros before the first datagram included. |
| UdpLinks.RunFeedsEveryPacket | src/DataLink/UDPLink.cpp:67-89 | However packets are grouped into datagrams, the factory is fed all of them in order of arrival. |
| UdpLinks.DatagramEndsAnywhere | src/DataLink/UDPLink.cpp:78-84 | Of the packet a datagram ends in, 80 bytes or more are kept for the next datagram and fewer are dropped; the history is that of decoding the stream so far at once. |
| UdpLinks.DatagramsCutAnywhere | src/DataLink/UDPLink.cpp:67-89 | However a stream is cut into datagrams, if none ends 1 to 79 bytes into a packet, the link ends in the state of having decoded it at once. |
| UdpLinks.FirstDatagramBehindZeros | src/DataLink/UDPLink.cpp:28 | Behind the 98302 zeros, a first datagram is undefined if and only if it ends 2 to 75 bytes into its first packet. |
| UdpLinks.OtherTypeStopsTheLink | include/DataLink/DataLink.hpp:476-481 | After a packet of another type, complete by its sizes, what came before it is fed, and the link does not listen any more. |
| UdpLinks.ScanOverUdp | include/DataLink/UDPLink.hpp:74-103 | From the bytes of datagrams to the scan, whatever was published before: a whole scan in any order adds exactly one scan, in packet order, if packet 1 arrives first, and adds none otherwise. |
| Reassembly.PilesUp | include/DataLink/DataLink.hpp:443-445 | Packets of one scan that never complete it pile up behind whatever they cut off. |
| Reassembly.Resynchronises | include/DataLink/DataLink.hpp:351-361 | After any losses, the packets of a scan that starts anew are emitted as exactly that scan, at the last of them and not before, and leave the factory empty. |
| Reassembly.EmittedScanIsExact | include/DataLink/Data.hpp:287-293 | From packets of one scan, after any losses: the scan emitted has exactly the points announced if and only if some prefix of the packets received holds exactly that many, and more otherwise. |
| Reassembly.WholeScanCompletes | include/DataLink/TCPLink.hpp:69-71 | A whole scan in packet order becomes complete with its last packet only, over both transports. |
| Reassembly.WholeScanResynchronises | include/DataLink/DataLink.hpp:351-361 | Hence after any losses a whole scan in packet order is emitted, and nothing but it, over both transports. |
| Reassembly.FirstPacketFirst | include/DataLink/UDPLink.hpp:62-68 | A whole scan in any order with packet 1 first is complete at its last arrival only. |
| Reassembly.LateScanIsLost | include/DataLink/DataLink.hpp:359-361 | With packet 1 later, the packets before it are discarded and the others stay incomplete. |
| Reassembly.OrderOfArrival | include/DataLink/UDPLink.hpp:44-103 | For every permutation of a whole scan: it is emitted if and only if packet 1 comes first, then once, at the last arrival, from any state of the factory; every sort turns it into the scan in packet order. |
| Reassembly.ReorderedScanIsLost | include/DataLink/DataLink.hpp:443-445 | Packet 2 before packet 1: all points have arrived and no scan comes out. |
| Reassembly.TransportsAgree | include/DataLink/UDPLink.hpp:44-103 | On packets in order, whatever scans are cut short, the TCP and the UDP factory go through the same states and emit the same batches. |
| Reassembly.SamePublications | include/DataLink/UDPLink.hpp:74-103 | Batches in packet order are published as the same scans over both transports. |
| Reassembly.TransportsPublishTheSame | include/DataLink/TCPLink.hpp:54-120 | Hence on packets in order both links publish the same scans. |
| ScanPublication.ScanOutput.constructor | include/DataLink/DataLink.hpp:608-620 | The empty scan, no scan counted, nobody waiting. |
| ScanPublication.ScanOutput.StoreScan | include/DataLink/DataLink.hpp:576 | Stores the next scan without the lock, before it is counted. |
| ScanPublication.ScanOutput.CountScan | include/DataLink/DataLink.hpp:577-581 | Counts it. |
| ScanPublication.ScanOutput.RecordCount | include/DataLink/DataLink.hpp:520-521 | A thread starts to wait with the count of that moment. |
| ScanPublication.ScanOutput.TestCondition | include/DataLink/DataLink.hpp:522-526 | A thread goes on if and only if the count has changed or the link is interrupted, and gives up only at a time-out at which neither holds. |
| ScanPublication.ScanOutput.LoadScan | include/DataLink/DataLink.hpp:527 | It returns the scan stored at that moment, which may be newer than the one that woke it. |
| ScanPublication.RunIsSound | include/DataLink/DataLink.hpp:575-583 | Over all interleavings of one producer and any number of threads, the last scan stored is the last counted or the next, and a thread woken by the count returns a scan newer than the count it recorded. |
| ScanPublication.ReturnedScansAreFresh | include/DataLink/DataLink.hpp:516-530 | In every run every scan returned is at least as new as the count recorded, and newer unless the thread was woken by an interruption before another scan was counted. |
| ScanPublication.NewerIffStored | include/DataLink/DataLink.hpp:516-530 | In every run, whatever the others do meanwhile, the scan returned is the last one stored until then; it is newer than the count recorded if and only if one was stored and not yet counted when the thread began to wait, or one was stored until it took the scan. |
| ScanPublication.InterruptionReturnsAnOldScan | include/DataLink/DataLink.hpp:506-530 | A run in which an interruption returns the scan that was there before the thread began to wait. |
| ScanPublication.OtherStepsOnlyCount | include/DataLink/DataLink.hpp:516-530 | No other thread changes what a waiting thread has recorded. |
| ScanPublication.NoCountIsMissed | include/DataLink/DataLink.hpp:520-526 | A waiting thread can wake if and only if a scan has been counted since it recorded the count, or the link is interrupted; otherwise, and only then, it can time out. |
| Workers.Worker.constructor | include/Worker.hpp:36-37 | Nothing queued, nothing executed. |
| Workers.Worker.PushJob | include/Worker.hpp:90-100 | Queues the job at the end if and only if at most maxJob wait, and says whether it did. |
| Workers.Worker.SwapJobs | include/Worker.hpp:46-55 | Takes all waiting jobs as the next batch, or leaves if interrupted, taking none. |
| Workers.Worker.ExecuteNext | include/Worker.hpp:56-59 | Executes the first job of the batch. |
| Workers.Worker.Interrupt | include/Worker.hpp:72-74 | Only raises the flag. |
| Workers.Worker.ClearJobs | include/Worker.hpp:76-77 | Throws away what waits, after the worker has left. |
| Workers.RunIsSound | include/Worker.hpp:36-100 | Over all interleavings, the accepted jobs are, in order of push, those executed, those of the batch, those waiting and those thrown away; at most maxJob + 1 wait. |
| Workers.InterruptedTakesNoBatch | include/Worker.hpp:43-55 | Once interrupted, in every run the worker executes what is left of its batch and takes no other. |
| Workers.BatchFreesTheQueue | include/Worker.hpp:54 | A batch is all that waits: as soon as it is taken, maxJob + 1 pushes are accepted again. |
| Workers.FirstInFirstOut | include/Worker.hpp:29-109 | In every run jobs execute in order of push, at most once, and all of them if nothing is left and nothing was thrown away; after destruction, accepted jobs are those executed and those thrown away. |
| Workers.MaximumIsExceeded | include/Worker.hpp:93-97 | For every maximum, maxJob + 1 pushes are all accepted and maxJob + 1 jobs wait. |
| Workers.ExceedsOnlyWhenFull | include/Worker.hpp:93-97 | In every run the step that takes the queue above the maximum is the push made when exactly maxJob jobs wait, and no other. |
| Workers.AcceptedOnlyGrows | include/Worker.hpp:90-100 | Nothing accepted or executed is ever taken back or reordered. |
| Workers.RejectedNeverExecuted | include/Worker.hpp:93-99 | A rejected job is not executed in any continuation. |
| AsyncCommands.AsyncDevice.constructor | include/R2000.hpp:424-429 | A new worker, no endpoints known, no operation in progress. |
| AsyncCommands.AsyncDevice.AsyncHttpGet | src/R2000.cpp:212-233 | The command is pushed on the worker, which refuses it if and only if more than its maximum wait, and the caller is told. |
| AsyncCommands.AsyncDevice.RunNextJob | src/R2000.cpp:214-230 | When the worker executes it, the oldest command of the batch starts to connect if the endpoints are known, and otherwise to resolve them. |
| AsyncCommands.AsyncDevice.ResolverHandler | src/R2000.cpp:219-224 | The list of endpoints found is stored, and after an error an empty one; the command goes on or is answered. |
| AsyncCommands.AsyncDevice.OnEndpointResolutionAttemptCompleted | src/R2000.cpp:235-263 | With endpoints, attempts in progress are aborted and one more begins; without, the callback is called with a time-out or a failure. |
| AsyncCommands.AsyncDevice.OnSocketConnectionAttemptCompleted | src/R2000.cpp:265-292 | The attempt ends, and the callback of its command is called with the reply, a time-out or a failure. |
| AsyncCommands.AsyncDevice.CloseSocket | src/R2000.cpp:321-328 | All attempts in progress are aborted; none ends by it. |
| AsyncCommands.RunsItsWorker | src/R2000.cpp:232 | Every run of the device is a run of its worker, so that the order, the bound and the jobs thrown away are those of the worker. |
| AsyncCommands.StepMoves | src/R2000.cpp:212-292 | No step loses or duplicates a command: it moves from one place to another, and only executing its job brings a new one. |
| AsyncCommands.RunAccounts | src/R2000.cpp:212-292 | In every run each command whose job has been executed is in exactly one place, others are nowhere, and all attempts but the last are aborted. |
| AsyncCommands.CalledOnce | src/R2000.cpp:212-292 | In every run a callback is called at most once, never for a command refused or thrown away with the queue of the worker, and exactly once for any other when all has drained; at most one attempt is not aborted, and at most maxJob + 1 commands wait. |
| AsyncCommands.AnsweredAsCompleted | src/R2000.cpp:252-291 | Over every run a callback gets each answer as often as its own operation ended in that way: a reply for an answer over HTTP, a time-out for an abortion, a failure for anything else. |
| AsyncCommands.RepliedIffConnectedAndReplied | src/R2000.cpp:270-274 | A command gets a reply if and only if its own attempt connected and was replied to, and then this is all it gets. |
| AsyncCommands.AnswersMatchOutcomes | src/R2000.cpp:252-291 | Over every run there are as many replies, time-outs and failures as steps with these outcomes. |
| AsyncCommands.RefusedIsNeverCalled | src/R2000.cpp:232 | The callback of a command that the worker refuses is not called in any continuation. |
| AsyncCommands.KnownOnceResolved | src/R2000.cpp:215-223 | The endpoints count as known if and only if some resolution has completed, successful or not. |
| AsyncCommands.ResolvesUntilFirstCompletion | src/R2000.cpp:215-225 | In every run a command executed resolves if and only if no resolution has completed before; otherwise it connects. |
| AsyncCommands.NoNewResolution | src/R2000.cpp:215-225 | Once one has completed, the resolutions in progress are always among those that were in progress then. |
| AsyncCommands.FailedResolutionIsFinal | src/R2000.cpp:222-249 | A device with an empty list of endpoints and nothing else in progress never replies to a command again, in any continuation. |
| AsyncCommands.FirstFailureCutsOff | src/R2000.cpp:219-225 | A first resolution that fails leads there: the second command does not resolve, and its attempt has no endpoint. |
| StatusWatching.StatusWatcher.constructor | include/StatusWatcher.hpp:541-555 | Not connected, no event fired. |
| StatusWatching.StatusWatcher.StatusWatcherTask | src/StatusWatcher.cpp:42-69 | Over any polls, the events fired and the final state are those of the turns one after the other, whatever the state before. |
| StatusWatching.EventsAlternate | src/StatusWatcher.cpp:51-63 | Over any polls and thresholds that change, connections and disconnections strictly alternate, a connection first, and the state is what the last one says. |
| StatusWatching.EverySuccessIsReported | src/StatusWatcher.cpp:51-57 | Over any polls there are as many status events as successes, and a connection event comes right after one. |
| StatusWatching.OnlySuccessIsReported | src/StatusWatcher.cpp:45-63 | A turn without success fires nothing, or a disconnection. |
| StatusWatching.Hysteresis | src/StatusWatcher.cpp:51-63 | For a fixed threshold the state is a function of two facts about the whole trace: some poll succeeded, and how many failures followed the last success. |
| StatusWatching.ConnectedWhileFewFailures | src/StatusWatcher.cpp:58-63 | Connected exactly while fewer than max(threshold, 1) failures follow a success if the threshold is below 2^32; from 2^32 on it never disconnects. |
| StatusWatching.ThresholdReached | src/StatusWatcher.cpp:58-63 | A success and then as many failures in a row as the threshold says, or more, leave the device connected if and only if the threshold is 2^32 or more. |
| StatusWatching.BusyTurnsDoNotMatter | src/StatusWatcher.cpp:44-47 | Turns in which the device was busy change neither events nor state, wherever they fall. |
| Requests.MakeRequestFromParameters | src/R2000.cpp:344-354 | The path is the prefix, the command and the equations joined with ampersands, although it is built by terminating each and dropping the last character. |
| Requests.PathsAreOfCommands | src/R2000.cpp:346 | Every path starts with "/cmd/" and the name of the command, but for an ampersand that is dropped. |
| Requests.PathOfTwo | src/R2000.cpp:346-352 | The characters between command, names and values. |
| Requests.PathOfSingleParameter | src/R2000.cpp:43-66 | The path of one parameter, or of none if its name is empty. |
| Requests.RequestRoundTrip | src/R2000.cpp:56-65 | For any order of iteration, command and parameters free of the delimiters are read back from the path. |
| Requests.BareRequestRoundTrip | src/R2000.cpp:63-65 | Without parameters the command is read back if and only if it does not end with an ampersand. |
| Requests.PrintingIsInjective | src/R2000.cpp:344-354 | Equal paths have equal commands and equal maps, however the maps are iterated. |
| Requests.ChainNames | include/Control/Commands.hpp:55-75 | The names of all builders, in their order. |
| Requests.ChainMaps | include/Control/Commands.hpp:83-104 | Inserting the maps one after the other gives the map of the next row. |
| Requests.FirstBuilderDecides | include/Control/Commands.hpp:83-104 | The names are those of all builders, and the first builder that has a name decides its value. |
| Requests.ConvertNamesToString | include/Control/Commands.hpp:824-833 | The names joined with semicolons, although each is terminated and the last character dropped; there must be a name. |
| Requests.SplitJoined | include/Control/Commands.hpp:828-831 | A non-empty list of names free of the separator is read back from its joined string. |
| Requests.NamesComeThrough | include/Control/Commands.hpp:824-833 | Joined and sent as the value of a parameter, the list of names is read back from the request, exactly. |

## Left out

- Boost.Asio, sockets, resolvers, timers, threads and their names: reads, handlers and deadlines are steps of an environment that may take them in any order; each handler is run once.
- Resolution of the endpoints of the TCP link, and the waits between attempts to connect (src/DataLink/TCPLink.cpp:37-57 and 77-80).
- Closing of the links: their destructors, and the device handle they release.
- HTTP and JSON: a request replies or throws (src/R2000.cpp:108-210); the callbacks are assumed not to throw, since otherwise a callback that throws is called again (src/R2000.cpp:271-282).
- Command executors, parameter builders and configuration of data links: single assignments, lookups and calls.
- Watchdog, stall monitoring, logging: no property that spans operations.
- Time stamps of scans, and the callbacks fired for new scans: only the list of scans published is modelled.
- The test of the connection before a thread waits for a scan (include/DataLink/DataLink.hpp:517-519).
- Malformed packets: extraction and the loop are specified for all bytes, but the theorems on whole streams are about well-formed packets, of at least 80 bytes; smaller packets are not found at the end of a buffer.
- Capacity of a vector: taken to be its size for the reception buffer, which is only ever made with a given size; reservations for the extraction buffer change no content.
- Wrap-around of the 64-bit count of scans (include/DataLink/DataLink.hpp:608).
- Duplicated datagrams: a whole scan has distinct packet numbers.
- Magic words inside packets after a short tail: `TcpRecovery` and `TcpLosses` are about gaps in which no packet seems to start; from a magic word in the rest of a packet cut off the link would decode a header made of measurements, of which only `StreamDecoding` speaks.
- Attempts to connect over an empty list of endpoints are taken never to connect; with endpoints, they end in any way.
- ScanFactories.SortByPacketNumber: an insertion sort stands for `std::sort`; only that the result is a sorted permutation is used.
- TcpLinks.TcpLink.OnBytesReceived: demands bytes that neither read out of range nor loop for ever, where the original's behaviour is undefined or does not end.
- Requests.ConvertNamesToString: demands a name, because removing the last character of an empty string is undefined.
