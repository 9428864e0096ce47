# PackOS in Dafny

PackOS is a small IPv6 microkernel with its own TCP, allocator, timers, message passing and scheduler. This project
models those parts and proves what they do, in every run where a run is what the property is about. The model does what the
code does; where the code falls short of its intent, a lemma shows an input or a run that fails and another says exactly
when the code is right.

`dafny verify dfyconfig.toml` checks everything.

## The parts

- **TCP** (`ByteQueue`, `Tcp`, `TcpRules`, `TcpSocket`, `TcpConnection`, `TcpRuns`, `TcpWindow`, `TcpFailures`). `TcpSocket` is
  the socket, its two byte rings updated in place; every method is proved to do what the functions of `Tcp` say, and `TcpRules` says
  by state and condition what that is. `TcpConnection` joins an active and
  a passive opener by a network that keeps every segment ever sent, so that a run may lose, repeat and reorder them at will, and
  proves what one call keeps of one direction. `TcpRuns` has the theorems about runs: the stream, the numbering, that no byte
  leaves a sender before it arrived, and the exact condition under which a sender's count survives a segment. For the passive
  opener they hold in every run until it closes; for the active one in every run in which it waits for its first
  acknowledgement, or in which the segments it hears meet the condition. `TcpWindow` says when a closed window opens again, and
  `TcpFailures` has the runs that go wrong.
- **Allocator** (`Arena`, `ArenaMemory`). `Arena` is the heap as blocks and a free list; `ArenaMemory` is the same heap as
  memory, with the headers inside it, and its methods are proved to be the abstract calls.
- **Timers** (`Timers`, `TimerServer`). The queue of relative delays, and the doubly linked list that holds it.
- **IPv6 packets** (`Wire`, `WireFields`, `WirePacket`, `HeaderAppend`, `Checksums`, `PacketChecksums`, `PacketQueue`). Byte order, field by
  field, and its round trip, appending a header, checksums against the bytes on the wire, and the ring with removal from the middle.
- **Kernel** (`PacketPool`, `Ipc`, `IpcKernel`, `Descriptors`). The pool of packets, message passing with the
  blocking flags, and segment descriptors.
- **Scheduler** (`ContextQueue`, `Scheduler`). The linked queue and the round-robin loop.
- **Text** (`Digits`, `Addresses`). Printing integers, and parsing and printing addresses.

`Words` holds 8-, 16- and 32-bit numbers as integer ranges, with the wrapping of C written out; `Sequences` and `Wrappers`
hold what several parts share.

## What the proofs found

Each with a failing input or run, and the exact condition where the code is sometimes right.

- The byte ring is wrong as soon as it wraps: ByteQueueRead exchanges its two pieces (libs/tcp/tcp.c:1096-1104),
  ByteQueueEnqueue runs past the array (1055), ByteQueueDequeue does not reduce `start` (1119). `WrongRead`, `WrappedRing`;
  exactly: `ReadIsRightExactly`, `EnqueueIsRightExactly`.
- The active opener starts with an acknowledgement number two below its first data byte (1390, 1406), so the first
  acknowledgement of less than its whole queue drops up to two bytes that never arrived. `ActiveOpenerLosesBytes`; exactly:
  `CountIsExact`. A user that waits is safe: `PatientOpenerIsSafe`.
- In LAST_ACK a stale acknowledgement is recorded anyway (1914), and in FIN_WAIT_1 a FIN moves the numbering by two
  under queued bytes (1856). `LastAckLosesByte`, `FinWait1RepeatsBytes`; exactly: `CountIsExact`.
- The opening SYN carries FIN, because the socket is still CLOSED when it is built (1283-1285): a second copy
  half-closes the peer. `RepeatedSynHalfCloses`; exactly: `HalfClosesExactly`. One that is half-closed before it is accepted
  never is (`PastForGood`).
- A window that closes is announced open again only by a segment that happens to be sent for another reason: `receive` sends
  none, and a sender's own segments without data are not answered. `StallIsReached`; exactly: `StallEndsExactly`, and over runs
  `StallLasts`.
- An idle socket closes without a word: `fire` has nothing to send and nothing to acknowledge, so no FIN leaves.
  `IdleCloseIsSilent`; exactly: `CloseSends`.
- The gap test (1786) is not modular. `GapTestFails`; exactly: `GapTestIsRightExactly`.
- malloc rounds requests from 2^32 - 15 up to 2^32 - 8 bytes to nothing and larger ones to a header alone
  (`RoundedFitsExactly`), and never joins free blocks (`NeverFitsAgain`).
- A timer inserted before others puts them all off. `InsertDelaysOthers`; exactly: `InsertOnTimeExactly`. A repeating one can
  starve others for ever, and two can where neither would alone. `TwoStarve`, `TwoStarveInARun`; exactly, for one:
  `StarvesExactly`; for several, one way each: `StarvedForEver`, `PatientIsTicked`. A send to an unreachable address removes the
  next client too and brings the others forward. `UnreachableHastens`; exactly: `FailedSendExactly`. With no client left after
  a failure a null pointer is followed: `NullFollowedExactly`.
- TcpChecksum and IcmpChecksum use the payload length also behind extension headers. `PayloadLengthFails`; exactly:
  `PayloadLengthRightExactly`.
- packetToIndex takes an address in the page below the pool for slot 0. `BelowPoolFreesSlotZero`, `BelowPoolDoublesPacket`;
  exactly: `IndexIsSlotExactly`. A failed mapping destroys the free list and leads to a packet handed out twice.
  `FailureDoublesPacket`; exactly: `FailureBreaksLinksExactly`. Freeing a free slot leaves interrupts off
  (kernel/packetK.c:463-467), and a timer tick that cannot be sent frees its packet twice
  (libs/scheduler/timerServer.c:411-414). `PacketPool.FreePacket`.
- A receive that comes back empty leaves its caller marked blocking. `MarkedWhileRunning`; exactly: `ReturnsMarkedExactly`.
- With no context able to run the scheduler's rotation goes on for ever; the message for that case is
  printed only for a queue of one, which the loop excludes. `RotationEndsExactly`.
- layoutIntUnsigned writes zeros before blanks. `ZerosBeforeBlanks`; exactly: `LaidShowsExactly`.
- The `::` expansion copies upwards over itself. `ExpansionFails`; exactly: `SkipTextParsesExactly`. The parser also takes a
  trailing colon, and a third colon behind `::`, for a group of zero. `TrailingColonAccepted`, `ThirdColonAccepted`; exactly:
  `AcceptsExactly`.
- A writable data segment is always built as a big one (kernel/pagingK.c:277), and of a read-only one the stack flags are never
  read back (236-241). `SmallWritableComesBackBig`, `ReadOnlyLosesExpandsDown`; exactly: `RecoversExactly`.

## Assumptions

- Little-endian machine, as the code's own default. Sends, allocations inside the network code and list nodes succeed, but
  for the sends of the timer server, which may fail (`TriesExactly`); the theorems about its runs are about those that succeed.
- TCP: one active and one passive opener and one connection; the initial number is the constant the code returns; sequence
  numbers stay below 2^32. The runs are over bounded byte sequences; the code's rings are such sequences as long as its copies
  are right (`SendFits`, `FireFits`, `ReceiveFits`, `FilterFits` in `Tcp`), which the methods of `TcpSocket` ask for.
- Packets: the header chain lies inside the buffer, and so do the bytes a length field announces. The code checks neither.
- Interrupts are off inside each kernel call, as the code arranges. What a context does while it has the processor, and
  what hardware and other contexts do around a turn of the scheduler, are parameters.

## Model

| member | source | states |
|---|---|---|
| Words.ModLtIsOrder | libs/tcp/tcp.c:2045-2065 | the modular tests agree with the true order of unbounded positions up to 2^31 apart, except at a distance of exactly 2^31 below |
| ByteQueues.EnqueueIsRightExactly | libs/tcp/tcp.c:1050-1064 | an enqueue puts every byte where the ring expects it if and only if the bytes already queued do not wrap; otherwise, and only then, it writes outside the array |
| ByteQueues.EnqueueWrapsOutside | libs/tcp/tcp.c:1055-1060 | one byte enqueued behind two that wrap is written behind the array |
| ByteQueues.ReadIsRightExactly | libs/tcp/tcp.c:1092-1108 | a read copies the queued bytes in order and leaves the ring in place if and only if it does not pass the end of the ring, or takes a full ring from half way round |
| ByteQueues.ReadsInsideExactly | libs/tcp/tcp.c:1092-1106 | which reads stay inside the array |
| ByteQueues.ReadWrapsWrongly | libs/tcp/tcp.c:1096-1104 | a read of three bytes at the end of the ring returns a wrong byte and moves the ring |
| ByteQueues.WrappedRing | libs/tcp/tcp.c:1027-1126 | a new ring, filled, emptied but for two bytes and given two more, holds four bytes that wrap, and the next byte would be written outside the array |
| ByteQueues.WrongRead | libs/tcp/tcp.c:1070-1109 | a read of three bytes from it returns the first, the third and the fourth, and moves the ring |
| ByteQueues.ByteQueue.Enqueue | libs/tcp/tcp.c:1027-1068 | appends as many bytes as there is room for, in the circular array, and says how many, whenever the copy stays inside the array |
| ByteQueues.ByteQueue.Read | libs/tcp/tcp.c:1070-1109 | the bytes at the offsets the code copies from, for every read inside the array; the first bytes of the queue, and nothing changed, where the read is right |
| ByteQueues.ByteQueue.Dequeue | libs/tcp/tcp.c:1111-1126 | the same bytes, removed; the queue without its first bytes where the read is right |
| ByteQueues.ByteQueue.Drop | libs/tcp/tcp.c:1128-1152 | removes the first bytes; dropping more than there are empties the ring |
| TcpSockets.TcpSocket.Send | libs/tcp/tcp.c:583-642 | queues all the bytes or as many as fit, and refuses exactly outside of ESTABLISHED and CLOSE_WAIT or with a full queue; it fires if and only if it queued some and 1460 are there |
| TcpSockets.TcpSocket.Fire | libs/tcp/tcp.c:644-790 | one segment, unless there is nothing to send and nothing to acknowledge: with the numbers, the room left, and as the data the first queued bytes, as many as are queued, as the window is open for or as fit in a packet, whichever is least |
| TcpSockets.TcpSocket.Receive | libs/tcp/tcp.c:923-991 | refuses a socket that does not transfer, waits exactly while nothing is queued, else gives the reader the next bytes of the incoming queue and takes them out |
| TcpSockets.TcpSocket.Close | libs/tcp/tcp.c:262-311 | sends the same kind of segment, with FIN but from CLOSE_WAIT, and none if the socket is idle; the states follow `TcpRules.CloseLeads` |
| TcpSockets.TcpSocket.RecordAck | libs/tcp/tcp.c:1411-1445 | drops the bytes counted from the last acknowledgement, or nothing if that is ahead |
| TcpSockets.TcpSocket.TakeData | libs/tcp/tcp.c:1784-1813 | trims what is old, refuses a gap, queues the rest |
| TcpSockets.TcpSocket.Filter | libs/tcp/tcp.c:1611-1937 | the reaction to a segment in every state but LISTEN is the one the protocol lemmas are about, and the one of `TcpRules.FilterReacts` |
| TcpSockets.TcpSocket.OnListen | libs/tcp/tcp.c:1637-1692 | a SYN to a listener makes a socket in SYN_RECEIVED that expects the next number, answers and waits to be accepted; while one waits, or without SYN, nothing happens |
| TcpSockets.TcpSocket.Accept | libs/tcp/tcp.c:491-535 | hands over the waiting socket exactly if it is in state ESTABLISHED, else waits; refuses a socket that does not listen |
| TcpRules.FireSends | libs/tcp/tcp.c:644-790 | what fire sends and leaves: both directions of when it sends, and the least of the three bounds |
| TcpRules.SendSends | libs/tcp/tcp.c:583-642 | the same for a send: how many bytes are taken and when it transmits |
| TcpRules.CloseSends | libs/tcp/tcp.c:262-311 | the same for a close, whose segment carries FIN exactly if the state was not CLOSE_WAIT; an idle socket sends none |
| TcpRules.CloseLeads | libs/tcp/tcp.c:276-308 | where a close leads from each state |
| TcpRules.ConnectSends | libs/tcp/tcp.c:1375-1409 | the one opening SYN, which carries FIN, and the number counted on from |
| TcpRules.RecordAckDrops | libs/tcp/tcp.c:1411-1445 | as many bytes go as the acknowledgement is ahead of the last one, or nothing |
| TcpRules.DataTaken | libs/tcp/tcp.c:1784-1813 | of arriving data the last bytes from the expected number on, as far as there is room; of a segment past it or behind it none |
| TcpRules.FilterReacts | libs/tcp/tcp.c:1611-1937 | for every state and segment: the state it leads to, the numbers it leaves, which segments are answered and with what, and the window learned |
| TcpConnections.AckKeepsStepExactly | libs/tcp/tcp.c:1411-1445 | recording an acknowledgement leaves exactly the unacknowledged bytes queued if and only if the last acknowledgement was counted from the first queued byte, or the whole queue is acknowledged |
| TcpConnections.DeltaTestIsOrder | libs/tcp/tcp.c:1424-1443 | on unbounded positions up to 2^31 apart the delta test is the true order, across 2^32 as well: an acknowledgement older than the last one leaves the sender untouched, any other is recorded and drops as many bytes as it is ahead |
| TcpConnections.GapTestIsRightExactly | libs/tcp/tcp.c:1784-1797 | the plain unsigned gap test takes the intended bytes if and only if the segment starts in the same run of 2^32 numbers as the expected byte, or is wholly old |
| TcpConnections.GapTestFails | libs/tcp/tcp.c:1784-1797 | a segment across 2^32 whose two new bytes are refused, and one ahead of a gap from which more bytes are taken than it holds |
| TcpConnections.TakenBytesAreInTheSegment | libs/tcp/tcp.c:1784-1826 | the bytes a receiver takes are the next bytes of the stream and lie inside the segment |
| TcpRuns.NextKeepsFlow | libs/tcp/tcp.c:1447-1937 | every call at either end, and every delivery of any segment ever sent, keeps the flow from one end, if a segment delivered at that end keeps its count; deliveries at the other end are free |
| TcpRuns.RunKeepsFlow | libs/tcp/tcp.c:583-1937 | so it holds in every state of every such run, whatever is lost, repeated or reordered |
| TcpRuns.StreamIsAPrefix | libs/tcp/tcp.c:1755-1826 | the bytes read at one end, with those waiting to be read, are a prefix of the bytes the other end accepted for sending |
| TcpRuns.NothingUnreceivedIsDropped | libs/tcp/tcp.c:1411-1445 | while both ends transfer, first queued number <= expected number <= first queued number + queue length; an empty queue means all has arrived |
| TcpRuns.PassiveAlwaysCounts | libs/tcp/tcp.c:1732-1753 | in every run, until the passive opener closes, every segment keeps its count, because the handshake synchronises its acknowledgement number |
| TcpRuns.PassiveStreamIsSafe | libs/tcp/tcp.c:1411-1826 | in every run, until the passive opener closes, its stream arrives as a prefix; while both ends transfer no unreceived byte is dropped and the acknowledgement number is the number of the first queued byte |
| TcpRuns.HandshakeAgrees | libs/tcp/tcp.c:1375-1409 | in every run, once both ends transfer, each expects the number of the other's first data byte plus what it has taken |
| TcpRuns.PatientOpenerCounts | libs/tcp/tcp.c:1390-1445 | an active opener that sends nothing before it has received a byte, or before its first acknowledgement, never meets a segment that breaks its count |
| TcpRuns.PatientOpenerIsSafe | libs/tcp/tcp.c:1390-1826 | and loses nothing: its stream arrives as a prefix and no unreceived byte is dropped |
| TcpRuns.CountIsExact | libs/tcp/tcp.c:1411-1926 | in every state with a queue to send from, ESTABLISHED to FIN_WAIT_2 and LAST_ACK, a segment leaves queued bytes in step with the stream if and only if it keeps the count |
| TcpRuns.DeliveryCountsExactly | libs/tcp/tcp.c:1447-1937 | the same for every delivery in a connection whose flow holds |
| TcpRuns.PastForGood | libs/tcp/tcp.c:507-535 | an end that has left ESTABLISHED never comes back to it, so a waiting socket that was half-closed is never accepted |
| TcpRuns.HalfClosesExactly | libs/tcp/tcp.c:1828-1837 | in every run, an established end whose peer has not closed is half-closed by a delivery if and only if it is the passive end and the segment is a copy of the opening SYN |
| TcpRuns.DeliveredFireAdvances | libs/tcp/tcp.c:644-721 | a segment fired now is never a gap: delivered, it moves the receiver to its end or to a full queue |
| TcpRuns.DeliveredAckTrims | libs/tcp/tcp.c:1411-1445 | the acknowledgement a receiver fires, delivered to a synchronised sender, leaves exactly the bytes not yet received |
| TcpWindows.StallEndsExactly | libs/tcp/tcp.c:644-721 | while the window a sender knows is closed and the receiver has nothing to send or acknowledge, timers, reads and deliveries leave the connection stalled, and the receiver silent, unless the delivery is of a segment with an open window; then, and only then, the stall ends |
| TcpWindows.StallLasts | libs/tcp/tcp.c:644-990 | so it lasts through every run without such a delivery, even if the receiver reads everything |
| TcpWindows.StallIsReached | libs/tcp/tcp.c:583-721 | a run that gets there: eight chunks of 2048 bytes are sent, received and acknowledged, none is read, and one more byte is sent |
| TcpFailures.RepeatedSynHalfCloses | libs/tcp/tcp.c:1251-1286 | a second copy of the opening SYN, which carries FIN because the state is still CLOSED, half-closes the established passive end |
| TcpFailures.ActiveOpenerLosesBytes | libs/tcp/tcp.c:1390-1406 | a run in which the active opener's first two bytes are dropped by an acknowledgement of none of them |
| TcpFailures.FinWait1RepeatsBytes | libs/tcp/tcp.c:1839-1865 | a run in which a FIN moves the numbering of FIN_WAIT_1 by two under two queued bytes, and the peer receives them twice |
| TcpFailures.LastAckLosesByte | libs/tcp/tcp.c:1899-1926 | a run in which a stale acknowledgement is recorded in LAST_ACK, a byte nobody acknowledged is dropped, and the peer receives the third byte after the first |
| TcpFailures.IdleCloseIsSilent | libs/tcp/tcp.c:288-293 | a run in which an end closes, is in FIN_WAIT_1 and has sent no FIN, nor will fire one |
| Arenas.RoundedFitsExactly | libs/utils/alloc.c:91-96 | the rounded size holds the request and a header if and only if the request is at most 2^32 - 16; the next eight, up to 2^32 - 8, round to nothing, and the last seven to a header alone |
| Arenas.SplitKeepsTiling | libs/utils/alloc.c:107-120 | cutting a block leaves two blocks, each with room for a header, and the blocks still tile the arena |
| Arenas.MallocKeepsSound | libs/utils/alloc.c:71-126 | malloc keeps the tiling and a free list of blocks, none twice |
| Arenas.FreeKeepsSound | libs/utils/alloc.c:128-141 | so does free, of a live pointer or null |
| Arenas.EveryCellInOneBlock | libs/utils/alloc.c:47-141 | every cell of the arena lies in exactly one block |
| Arenas.MallocAndFreeBalance | libs/utils/alloc.c:71-141 | malloc takes the rounded size out of the free total, and freeing the block gives exactly that back |
| Arenas.MallocPromise | libs/utils/alloc.c:71-126 | null if and only if every free block is too small; else a free block, large enough, apart from every live one, which all stay as they were |
| Arenas.FreedIsReusedFirst | libs/utils/alloc.c:97-141 | the block freed last is handed out first to a request it can hold |
| Arenas.RunKeepsTiling | libs/utils/alloc.c:47-141 | over every run of calls the blocks tile the arena and only get finer |
| Arenas.NeverFitsAgain | libs/utils/alloc.c:128-141 | with no coalescing: once no block can hold a request it fails in every later state, even when all is freed |
| ArenaMemories.CarvedDescribes | libs/utils/alloc.c:107-122 | rewriting the headers in memory for a split or an unlink is the abstract malloc |
| ArenaMemories.FreeHeaders | libs/utils/alloc.c:128-141 | writing one header is the abstract free |
| ArenaMemories.PayloadApart | libs/utils/alloc.c:71-141 | the cells of a live payload are no header's: a program may write them without disturbing the allocator |
| ArenaMemories.ArenaMemory.Malloc | libs/utils/alloc.c:71-126 | the walk over headers inside the arena finds the first fit and leaves memory describing the abstract result |
| ArenaMemories.ArenaMemory.Free | libs/utils/alloc.c:128-141 | the same for free |
| ArenaMemories.ArenaMemory.Store | libs/utils/alloc.c:71-126 | a store into a live payload leaves the described arena unchanged |
| Timers.TicksAreNearestExactly | libs/scheduler/timerServer.c:40-44 | the request becomes the nearest number of ticks if and only if neither 32-bit step overflows |
| Timers.InsertDue | libs/scheduler/timerServer.c:46-92 | the new client falls due after exactly the ticks it asked for, clients before it keep their due times, each one after it is put off by the new one's remaining delay |
| Timers.InsertOnTimeExactly | libs/scheduler/timerServer.c:59-89 | an insertion leaves every other due time as it was if and only if it comes last or has no delay left |
| Timers.InsertDelaysOthers | libs/scheduler/timerServer.c:59-89 | a client due in 10 ticks is put off to 13 by another that asks for 3 |
| Timers.TicksLeadingRunOnce | libs/scheduler/timerServer.c:434-494 | sendTicks ends, ticks each client of the leading run of zeros exactly once, in order, and no other, and leaves a positive head |
| Timers.RegisterOnTimeExactly | libs/scheduler/timerServer.c:127-183 | registering keeps everyone exactly on time if and only if the new client comes last or has no delay left |
| Timers.NeverEarly | libs/scheduler/timerServer.c:434-521 | over every run no client is ticked before its period has passed since it registered or was last ticked, and the head is positive between calls |
| Timers.StarvesExactly | libs/scheduler/timerServer.c:118-125 | a client anywhere behind a repeating one, the only one in front of it, is ever ticked if and only if no delay from there up to its own is longer than that one's period |
| Timers.StarvedForEver | libs/scheduler/timerServer.c:434-521 | over every run, whoever registers or repeats besides, a client behind a repeating one whose period is shorter than a delay between them or its own is never ticked |
| Timers.TwoStarve | libs/scheduler/timerServer.c:118-125 | two repeating clients keep a third from ever being ticked, though with either alone in front it would be |
| Timers.TwoStarveInARun | libs/scheduler/timerServer.c:127-183 | a run that gets there: a repeating request of three ticks, one clock tick, another such request, and one of six |
| Timers.PatientIsTicked | libs/scheduler/timerServer.c:434-521 | however many clients repeat in front of it, one whose due time is no later than any of their periods is ticked when that time has passed |
| Timers.TriesExactly | libs/scheduler/timerServer.c:434-494 | if no send to a client that is due fails, the loop is the one the theorems about runs are about; otherwise exactly those before the failure are ticked, in order |
| Timers.FailedSendExactly | libs/scheduler/timerServer.c:406-518 | after a send that fails nobody falls due earlier if and only if the client removed along with an unreachable one had at most one tick left and the tick given back does not overflow |
| Timers.NullFollowedExactly | libs/scheduler/timerServer.c:448-518 | when the first send of a clock tick fails a null pointer is followed if and only if no client is left behind those removed |
| Timers.TickGoesOut | libs/scheduler/timerServer.c:507-521 | if no send to a client that falls due fails, a clock interrupt is the clock tick of the theorems about runs |
| Timers.TickOnlyCounts | libs/scheduler/timerServer.c:507-521 | with the first delay above one nobody is ticked and everyone comes one tick nearer, whatever sends would come back with |
| Timers.TickStops | libs/scheduler/timerServer.c:434-521 | otherwise those before the first failure are ticked, and the queue is what giving up there leaves |
| Timers.UnreachableHastens | libs/scheduler/timerServer.c:406-463 | a client due in 12 ticks is due in 3 after the first client's address was found unreachable |
| TimerServers.TimerServer.InsertClient | libs/scheduler/timerServer.c:46-92 | the in-place walk and linking is the abstract insertion |
| TimerServers.TimerServer.Remove | libs/scheduler/timerServer.c:94-116 | unhooks a client, wherever it is, and keeps the others in order |
| TimerServers.TimerServer.NewClient | libs/scheduler/timerServer.c:127-183 | registers, or refuses a request for no ticks |
| TimerServers.TimerServer.SendTicks | libs/scheduler/timerServer.c:434-494 | the in-place loop, whatever its sends come back with, ticks what the abstract one ticks, leaves the same queue and ends the same way |
| TimerServers.TimerServer.SendFails | libs/scheduler/timerServer.c:406-466 | what a failed send removes from the list, and whether a null pointer is followed, is what the abstract one says |
| TimerServers.TimerServer.Tick | libs/scheduler/timerServer.c:496-521 | one clock interrupt: everyone one tick nearer while the first delay is above one; the clock tick of the theorems about runs if no send that falls due fails; and what is removed and given back after one that does |
| Wire.SwabReverses | common/arch.c:3-6 | storing a swapped 16-bit field reverses its bytes; swapping twice is the identity |
| Wire.Swab32Reverses | common/arch.c:8-15 | the same for 32 bits |
| Wire.ConvertKeepsHeaders | libs/ip/ipIterator.c:52-123 | conversion never changes which headers the iterator visits |
| Wire.ChainThereAndBack | libs/ip/ip.c:41-260 | converting a chain twice restores it, with the unused ICMP words cleared |
| Wire.PacketThereAndBack | libs/ip/ip.c:41-260 | to the wire and back is the identity if and only if the unused ICMP words were zero, for every packet whose chain fits and whose ICMP types are handled |
| WireFields.FieldsOnTheWire | libs/ip/ip.c:156-260 | for each header the iterator lists and each of its fields, by place and width, the network reads in the converted packet what the machine reads in the packet |
| WireFields.FixedOnTheWire | libs/ip/ip.c:41-155 | so for the first word and the payload length |
| WireFields.OtherBytesKept | libs/ip/ip.c:156-260 | a byte in no such field is kept |
| WireFields.UnusedCleared | libs/ip/ip.c:156-260 | but the unused word of two ICMP messages, which is cleared |
| WireFields.HandledExactly | libs/ip/ip.c:156-260 | a packet is refused if and only if a header listed is an ICMP message of another type than the six |
| WirePackets.HeaderIterator.Next | libs/ip/ipIterator.c:52-123 | yields the header at the current offset, for seven kinds and no other; an extension header names the next and its length in units of eight bytes beyond eight, a fragment header names the next, the others end the chain |
| WirePackets.HeaderIterator.HasNext | libs/ip/ipIterator.c:125-153 | whether a known header follows, and an error if the chain ends in an unknown kind |
| WirePackets.ToNetworkOrder | libs/ip/ip.c:156-260 | the packet in memory becomes its conversion, and the call fails if and only if an ICMP type is not handled |
| Checksums.FoldIsResidue | common/checksums.c:53-58 | folding is arithmetic modulo 65535 with 65535 for zero, save that nothing folds to nothing |
| Checksums.FoldIsOnesSum | libs/ip/util.c:3-10 | folding a 32-bit sum equals adding its words one at a time with IpUtilAdd1sComplement |
| Checksums.FoldTotalIsChecksum | common/checksums.c:4-23 | for whole words and an odd last byte alike, the fast form yields the Internet checksum |
| Checksums.ChecksumVerifies | common/checksums.c:53-58 | a sum with its own checksum added folds to 0xffff |
| Checksums.SumRange | common/checksums.c:4-23 | the downward loop adds every word once and an odd byte as a high byte, modulo 2^32; for a 16-bit count the 32-bit accumulator never wraps |
| Checksums.FoldDown | common/checksums.c:53-54 | the folding loop ends with the fold |
| PacketChecksums.UdpChecksum | common/checksums.c:25-59 | the result from host-order fields is the checksum of pseudo-header and wire bytes; -1 if and only if the length field is not the payload length or is below 8 |
| PacketChecksums.TcpChecksum | common/checksums.c:113-150 | the same for TCP, whatever the checksum field held; below a payload length of 20 the count behind the header wraps: what is folded is then the addresses, the header's own words without the checksum, length, kind and those bytes, modulo 2^32 |
| PacketChecksums.IcmpChecksum | common/checksums.c:61-111 | an error for three message types; for any other what is folded is the addresses, length, kind, type and code, the two words of an echo and the bytes behind the header, modulo 2^32; for three types, if the payload length covers the header, that is the checksum of what is sent |
| PacketChecksums.IcmpAddsExactly | common/checksums.c:76-103 | the words added of a header: type and code, and for the two echo messages two more |
| PacketChecksums.OnTheWire | libs/ip/ip.c:156-260 | the header a walk reaches is converted in place, with addresses and data as they were |
| PacketChecksums.ReachedIsListed | libs/ip/ipIterator.c:52-123 | a walk reaches an upper-layer header exactly where the iterator lists it |
| PacketChecksums.SentPacketVerifies | common/checksums.c:25-150 | a packet sent with the checksum in its field adds up to all ones at the receiver |
| PacketChecksums.PayloadLengthRightExactly | common/checksums.c:126-142 | taking the payload length for the upper-layer length is right if and only if the size of the extension headers and the bytes read behind the packet make up a multiple of 65535 |
| PacketChecksums.PayloadLengthBeforeZeros | common/checksums.c:126-142 | for a packet with zeros behind it, in host order as the code finds it, that length is right if and only if there are no extension headers |
| PacketChecksums.PayloadLengthFails | common/checksums.c:126-142 | a packet with an extension header in front of its TCP header, which gets the wrong checksum |
| HeaderAppend.LastHeader | libs/ip/ip.c:875-912 | finds the last header, where its successor is named, and where the chain ends |
| HeaderAppend.Protocol | libs/ip/ip.c:847-873 | the kind of the last header, or the kind a packet without headers names |
| HeaderAppend.Append | libs/ip/ip.c:914-1006 | links and copies as many bytes as the header announces, and points the caller at the copy, or refuses and changes nothing, as `HeaderAppend.AppendsExactly` says |
| HeaderAppend.AppendsExactly | libs/ip/ip.c:921-948 | taken if and only if the kind is known and the packet names no header, or its last header names none and may come before it |
| HeaderAppend.MayFollowExactly | libs/ip/ip.c:9-28 | of the seven kinds in the order of RFC 2460 one may follow another if and only if that is one of the first four and does not come later |
| HeaderAppend.FullSizeSays | libs/ip/ip.c:732-800 | the length a header announces: four bytes a unit for TCP, eight for extensions, eight bytes for the others |
| HeaderAppend.AppendedChain | libs/ip/ip.c:914-1006 | after a successful append the iterator yields the old headers in their places and then the new one, and ranks stay in order |
| HeaderAppend.AppendedRest | libs/ip/ip.c:1001-1004 | the payload length grows by exactly the header if and only if it does not overflow; all other bytes are kept |
| PacketQueues.EachProtocolInOrder | libs/ip/packet-queue.c:54-129 | over every run, for every protocol, the packets given out and then those queued are those accepted, in order |
| PacketQueues.TakenInOrder | libs/ip/packet-queue.c:94-119 | taking the first wanted packet out of the middle disturbs the order of no protocol |
| PacketQueues.TakesOldestWanted | libs/ip/packet-queue.c:78-119 | protocol 0 takes the oldest packet, any other the oldest of its own; none if and only if there is none |
| PacketQueues.PacketQueue.Enqueue | libs/ip/packet-queue.c:54-76 | appends to the ring, or refuses a full one |
| PacketQueues.PacketQueue.Dequeue | libs/ip/packet-queue.c:78-129 | returns and removes the first packet of the protocol and keeps the order of the others, in every ring state including a full one that wraps; no match changes nothing; protocol 0 is FIFO |
| PacketPools.AddressMapsBack | kernel/packetK.c:346-362 | the address handed out for a slot, and every address in its page, maps back to the slot |
| PacketPools.IndexIsSlotExactly | kernel/packetK.c:346-362 | packetToIndex accepts an address if and only if it lies in the pool or in the page below it, but for that page's first byte; the index is right if and only if it lies in the pool |
| PacketPools.AllocKeepsSound | kernel/packetK.c:364-437 | allocation takes a slot not in use and keeps the free list doubly linked and complete |
| PacketPools.FreeKeepsSound | kernel/packetK.c:439-488 | so does freeing a slot in use |
| PacketPools.NeverHandedOutTwice | kernel/packetK.c:364-488 | over every run with mappings that succeed, the slots in use are those handed out and not given back; allocation hands out none of them and fails only when all are out |
| PacketPools.AllocAnswers | kernel/packetK.c:372-424 | no memory if and only if all slots are in use; a failure if and only if one is free and the mapping does not work; else the page of a slot that was free and now is in use |
| PacketPools.HeldAreInUse | kernel/packetK.c:364-488 | over every run in which nothing is freed in the page below the pool, the addresses handed out and not freed are the pages of the slots in use |
| PacketPools.NewAddressIsNotHeld | kernel/packetK.c:364-437 | so an allocation hands out an address nobody holds |
| PacketPools.BelowPoolFreesSlotZero | kernel/packetK.c:346-362 | in every run, freeing an address in the page below the pool takes slot 0 back, and no other |
| PacketPools.BelowPoolDoublesPacket | kernel/packetK.c:346-488 | a run from a new pool in which the first packet is out, is freed by such an address, and is handed out next |
| PacketPools.FailureBreaksLinksExactly | kernel/packetK.c:385-411 | after a mapping that fails, or has no address, some list fits the pool if and only if what was stored are the very links; its low half decides whether the forward links survive and whether the next allocation stays inside the arrays |
| PacketPools.FailureHandsOutSlot | kernel/packetK.c:385-411 | the second allocation after such a mapping hands out the slot of its low half, slot 0 if there was no range; it is free if and only if it was listed behind the head |
| PacketPools.FailureDoublesPacket | kernel/packetK.c:385-424 | a run from a new pool that hands the same packet out twice |
| PacketPools.PacketPool.AllocPacket | kernel/packetK.c:364-437 | on every path, an empty pool, no range, a range without address, success: the array updates, and the address of the page of a slot that was free and now is in use; interrupts are as before |
| PacketPools.PacketPool.FreePacket | kernel/packetK.c:439-488 | the array updates are the abstract free; a free slot is left as it is, with interrupts off, and a foreign address halts |
| Ipc.StepKeeps | kernel/packetK.c:44-262 | every kernel call keeps the message-passing invariant |
| Ipc.NoLostWakeup | kernel/packetK.c:214-262 | in every run a context marked blocking has an empty queue, one that waits is marked blocking if and only if its queue is empty, and what it extracted is a prefix of what was inserted for it |
| Ipc.ReceivedInOrder | kernel/packetK.c:214-262 | in every run the packets the receives of a context came back with, and then those queued, are those put in for it, in order |
| Ipc.FindsExactly | kernel/packetK.c:91-118 | the lookup finds exactly the one context of that address that has not exited |
| Ipc.SendIsExact | kernel/packetK.c:135-207 | a send reaches the end of one queue, or fails and changes nothing: exactly if nobody has the address or the queue holds sixteen |
| Ipc.ReceiveIsExact | kernel/packetK.c:214-247 | a receive takes the first packet out of the queue; without one it fails if and only if it is to yield to a context that is finished or blocking, and else waits marked blocking |
| Ipc.ResumeIsExact | kernel/packetK.c:248-262 | the rest takes the first packet if there is one by then, and comes back in any case |
| Ipc.CreateIsExact | kernel/packetK.c:44-65 | a context is made, with nothing queued, if and only if its address is in range and free |
| Ipc.ExitIsExact | kernel/contextK.c:364-371 | an exit marks the context finished and not blocking, and its address is found no more |
| Ipc.ReturnsMarkedExactly | kernel/packetK.c:244-256 | a receive that resumes leaves its caller running and marked blocking if and only if its queue was empty |
| Ipc.MarkedWhileRunning | kernel/packetK.c:214-262 | a run of three calls that ends with a context running and marked blocking |
| Ipc.ExitIsFinal | kernel/contextK.c:364-371 | nothing changes a context that has exited |
| IpcKernels.KernelContext.InsertPacket | kernel/contextK.c:505-535 | appends to the ring of sixteen, or refuses a full one |
| IpcKernels.KernelContext.ExtractPacket | kernel/contextK.c:537-566 | takes the first packet out of the ring |
| IpcKernels.Kernel.Send | kernel/packetK.c:135-207 | the objects follow the abstract send, and only the recipient changes |
| IpcKernels.Kernel.Receive | kernel/packetK.c:214-247 | the same for a receive up to its switch: the packet returned is the first of the queue and no longer in it, and the history grows by it |
| IpcKernels.Kernel.Resume | kernel/packetK.c:248-262 | the same for the rest of it |
| IpcKernels.Kernel.Exit | kernel/contextK.c:364-371 | the same for an exit, with its entry in the address table |
| IpcKernels.Kernel.Create | kernel/packetK.c:44-65 | the same for a new context and its registration |
| ContextQueues.ContextQueue.Insert | libs/scheduler/contextQueue.c:89-105 | puts a context in front |
| ContextQueues.ContextQueue.Append | libs/scheduler/contextQueue.c:107-123 | puts a context at the back |
| ContextQueues.ContextQueue.Remove | libs/scheduler/contextQueue.c:139-158 | removes the first occurrence and keeps the order of the rest, or says there is none |
| ContextQueues.ContextQueue.Head | libs/scheduler/contextQueue.c:160-176 | the first context, or none |
| ContextQueues.ContextQueue.Len | libs/scheduler/contextQueue.c:230-247 | the number of contexts |
| Schedulers.RotationEndsExactly | libs/scheduler/basic.c:216-234 | with two or more contexts queued the inner loop ends if and only if some context can run; its own test for a full round never holds |
| Schedulers.FirstRunnableExactly | libs/scheduler/basic.c:216-234 | the context it ends at is the first that is running and not blocking |
| Schedulers.TurnKeepsSound | libs/scheduler/basic.c:206-371 | numNonDaemons is the number of non-daemon contexts in the queue after every turn |
| Schedulers.TurnAnswers | libs/scheduler/basic.c:206-300 | who gets a slot is running, not blocking and not finished; who is reaped is finished; over and stuck by their conditions |
| Schedulers.TurnLosesOnlyFinished | libs/scheduler/basic.c:236-371 | a turn loses no context but one that is finished |
| Schedulers.BoundedWaiting | libs/scheduler/basic.c:206-371 | a context at position k that stays runnable gets the slot of one of the next k + 1 turns, unless the loop is over first |
| Schedulers.RunLosesOnlyFinished | libs/scheduler/basic.c:206-371 | in every run the counter stays right and a context leaves the queue only once it is finished |
| Schedulers.RunStaysLive | libs/scheduler/basic.c:153-371 | in every run with an idle context that can always run, that context stays queued, every rotation ends, no turn is stuck, and the loop is over if and only if the idle context is alone or every context queued is a daemon |
| Schedulers.Scheduler.Rotate | libs/scheduler/basic.c:216-234 | the in-place rotation stops at the first context that can run; a queue of one is reported as blocked |
| Schedulers.Scheduler.Step | libs/scheduler/basic.c:206-371 | one turn on the linked queue is the abstract turn |
| Digits.DivisionStep | libs/utils/printf.c:29-41 | quotient and remainder of a number with one more byte from those of the number |
| Digits.Udiv64By10 | libs/utils/printf.c:5-64 | with 32-bit halves only: exactly a / 10 and a % 10 for every 64-bit a |
| Digits.NumeralMeans | libs/utils/printf.c:66-82 | the digits written stand for the number and start with no zero |
| Digits.LaidIs | libs/utils/printf.c:66-107 | zeros up to the precision, then padding to the width, then the digits |
| Digits.LaidWidth | libs/utils/printf.c:84-104 | the field is as wide as asked, or as its digits and zeros need |
| Digits.LaidShowsExactly | libs/utils/printf.c:84-104 | the field is blanks and then a numeral of the number if and only if it need not hold both zeros and blanks; always with precision 1 |
| Digits.ZerosBeforeBlanks | libs/utils/printf.c:84-104 | five in a field of four with precision 2 is laid out as a zero, two blanks and the five |
| Digits.LayoutUnsigned | libs/utils/printf.c:66-107 | the recursion writes exactly that to the stream |
| Addresses.ExpandsExactly | common/packet.c:114-131 | the `::` expansion is right if and only if the words its copy destroys are zero; always if at least as many groups are elided as follow |
| Addresses.FullTextParses | common/packet.c:33-134 | eight groups with colons between them parse to the address they spell; an empty last one stands for zero |
| Addresses.SkipTextParsesExactly | common/packet.c:33-134 | a text with `::` parses to its full expansion under exactly that condition |
| Addresses.OpenTextParses | common/packet.c:33-134 | a text that ends in `::` parses to its full expansion |
| Addresses.ExpansionFails | common/packet.c:114-127 | a text with three groups on each side of `::` that parses to another address |
| Addresses.AcceptsExactly | common/packet.c:33-134 | the texts accepted are exactly: eight groups of which only the last may be empty, or up to eight around one `::` with the first and the last behind it possibly empty |
| Addresses.TrailingColonAccepted | common/packet.c:63-112 | seven groups and a trailing colon are accepted |
| Addresses.ThirdColonAccepted | common/packet.c:63-112 | so is a third colon behind a `::` |
| Addresses.PrintedParses | common/packet.c:136-164 | parsing what was printed gives back the address |
| Addresses.DigitsRead | common/packet.c:11-31 | the sixteen digits are written in lower case and read in both |
| Addresses.OnlyDigitsRead | common/packet.c:25-31 | no other character is read as one |
| Addresses.Expand | common/packet.c:114-127 | the loop over the address itself is the abstract expansion |
| Addresses.FromString | common/packet.c:33-134 | the counters and jumps compute the abstract parse |
| Addresses.ToString | common/packet.c:136-164 | the printed text, 39 long, or a refusal of a buffer below 40 |
| Descriptors.RecoversExactly | kernel/pagingK.c:110-353 | reading back a built descriptor recovers base, flags and every type but data; the limit if and only if it has twenty bits; a data segment's type if and only if it is writable and big, or read-only and its stack flags are those the description read into happened to hold |
| Descriptors.SmallWritableComesBackBig | kernel/pagingK.c:270-280 | a small writable data segment comes back as a big one |
| Descriptors.ReadOnlyLosesExpandsDown | kernel/pagingK.c:236-241 | a read-only segment that expands down is built with the bit that says so and comes back without the flag |
| Descriptors.CallGateRecovers | kernel/pagingK.c:173-195 | a 32-bit call gate comes back whole from its scattered fields, except for the flag whose bit the offset takes |
| Descriptors.BuiltBits | kernel/pagingK.c:270-280 | the type bits of a built code or data segment, one by one |
| Descriptors.BuiltNumber | kernel/pagingK.c:282-338 | the number of each built system type |
| Descriptors.BuiltFields | kernel/pagingK.c:340-353 | the scattered base and limit and the flags of a built descriptor |
| Descriptors.BuiltGate | kernel/pagingK.c:315-331 | the three pieces of a built call gate's offset |
| Descriptors.ReadType | kernel/pagingK.c:131-246 | what each of the 16 system types, and the bits of code and data, read as |
| Descriptors.ReadFields | kernel/pagingK.c:121-251 | what the other fields of any descriptor read as |

## Left out

- TCP resets, SYN retransmission (there is none), simultaneous open, several sockets and port lookup, and TcpPoll's walk over sockets: one connection is modelled. The clock-driven transmission of `tick` is a call of Fire at any time.
- ByteQueues.ByteQueue.Enqueue: does not model an enqueue behind bytes that wrap, which writes outside the array.
- ByteQueues.ByteQueue.Read: does not model a read whose copies leave the array.
- ByteQueues.ByteQueue.Dequeue: does not model that either.
- RFC 793 numbering of SYN and FIN: the code's own numbering is modelled, in which the passive side's SYN takes no number.
- TcpSockets.TcpSocket.Send: does not model an outgoing ring that wraps, whose bytes the code writes outside the array or sends in the wrong order.
- TcpSockets.TcpSocket.Fire: does not model a segment read across the end of the ring, which the code copies in the wrong order while it moves the ring.
- TcpSockets.TcpSocket.Close: does not model that either, for the segment it fires.
- TcpSockets.TcpSocket.Receive: does not model a read across the end of the ring; waiting for packets is shown as other steps before the call is made again.
- TcpSockets.TcpSocket.TakeData: does not model data for an incoming ring that wraps, which the code writes outside the array.
- TcpSockets.TcpSocket.Filter: does not model that either.
- Timers: removal by request, which the server accepts and ignores, and error replies; the delay of a client during the walk of insertClient is kept in a local variable and stored once.
- IpReceiveOnUnfiltered, interfaces, UDP sockets and routing: error routing and foreign I/O.
- PacketQueues: the answer of IpPacketProtocol is a field of the queued packet; `HeaderAppend.Protocol` computes it.
- HeaderAppend.Append: does not model a buffer too small for the header, which the code does not check.
- PacketPools: the physical memory allocator of common/memory.c, whose merge paths do not complete their list updates.
- PacketPools.PacketPool.FreePacket: the code halts the kernel on a foreign packet, which is the answer Halted here.
- Ipc: PackosContextSetBlocking as a system call, which nothing in the repository uses; it could mark a context blocking that has packets.
- Schedulers.Scheduler.Rotate: does not model a queue of two or more in which no context can run, on which the code spins for ever (`Schedulers.RotationEndsExactly`).
- Schedulers.Scheduler.Step: the same.
- Schedulers: the packets the loop receives between slots, and the control server, which can only start contexts.
- Digits: floating point, octal and hexadecimal printing, format parsing, and the sign of layoutIntSigned.
- Descriptors: the gates other than the 32-bit call gate have no fields of their own to recover; descriptor allocation and the tables are assembly.
- Drivers, shared-memory interface, file systems, HTTP and boot code: hardware or foreign I/O.
- Context switching, TSS and GDT loading: assembly; a switch is a choice of who steps next.
