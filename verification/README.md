# TuxBase-MMO server core: a verified model

The project models four parts of the server and proves what they are for.

- **Ring buffer** (`RingSpec`, `RingFifo`, `RingSteps`, `RingGuarantees`, `RingRuns`, `RingMessages`, `RingHandles`,
  `RingBuffers`, `RingClients`). A byte FIFO in a fixed array with tail-skip, one writer and one reader reservation at
  a time. `RingSpec.Next` is the code of every operation on values, ASSERTs included: `Misuse` is one on the caller,
  `Broken` one on the buffer's own cursors. The theorems quantify over every event sequence, legal or not.
  `RingBuffers` holds the mutable buffer and handles; each method is proved to take exactly the step of `RingSpec`,
  the cursor ASSERTs stand in the bodies as assertions, and `Valid` says each active flag has one live handle.
  The frames name fields, so a handle of one side stays usable while the other side acts, as in `RingClients`.
- **Session send path** (`SendProtocol`, `SendProofs`, `SendDelivery`, `SendClosing`, `BoostSessions`). Any number of
  sender threads, a mutex, posted handlers and an asynchronous write. Every locked section and every gap between two of
  them is one step, and no strand is assumed. `SendDelivery` says what the peer gets, for every network, and
  `SendClosing` when the socket is closed.
  `BoostSessions.BoostSession` has the member functions, proved against the same locked sections.
- **Receive path** (`Packets`, `RecvBuffers`, `Receivers`). The linear buffer, header parsing, and the receive loop:
  commit, drain complete packets, close on an invalid header, otherwise compact.
- **Serial generator** (`SerialGenerators`).

Modelling choices:

- The ring buffer is proved for every capacity above 0, the receive buffer for every capacity and minimum that hold the
  largest packet; the source fixes 16384, and 16384 with 8192. Cursor sums never exceed the capacity (an assertion or a
  proved invariant wherever one is formed), so 32-bit wrap-around cannot occur at the source's sizes.
- Pointers are array indices; a null pointer is a negative one. Storing through a writer and filling the receive span
  are explicit steps.
- The network answers a write with success or failure after any part of its bytes has left. Where a run stops, nothing
  was delivered after something was dropped exactly if no write succeeded after another had failed
  (`SendDelivery.LateSuccess`). The wire skips no accepted byte exactly if no write sends anything while a settled byte
  is missing (`SendDelivery.Gapless`). The promise of a stream socket, that success means all bytes and that nothing
  leaves after a failure (`SendProtocol.StreamRun`), implies both. A posted handler runs later, at any time. Buffers
  stand for the shared pointers to them.
- Header fields are taken as little-endian. The time is an argument of `CreateSerial`, which cuts it to 32 bits.
- The receive loop is present in the source only as comments; its order follows them. The buffer member is commented out
  too, so its capacity comes from the declared `kRecvBufferSize` and its minimum from `kMaxPacketSize`.

Where documentation and code differ, the code is followed:

- `Asio_Strand.md` says each session's socket sits on its own strand; the constructor passes the bare context.
- `RingBuffer.md` describes `m_isFull` and `IsEmpty` as the full and empty conditions. Both can misreport:
  `RingGuarantees.IsEmptyExact` and `RingGuarantees.FullFlagExact` say exactly when, `RingRuns` reaches such states. The
  buffer's destructor asserts `IsEmpty`, so it can refuse a drained buffer: `RingGuarantees.DestructorExact` says
  exactly when, and `RingRuns.DestructorRefusesDrained` reaches such a buffer.
- The session notes reject packets above 8192 bytes; `PacketHeader::IsValid` also rejects one of exactly 8192.
- `CreateReader`, `CreateAllReader` and `CreateAllWriter` test for a size of 0 late in the body; the tests never
  succeed, and the methods assert so.

## Model

| member | source | states |
|---|---|---|
| RingFifo.FifoRefinement | 01_Server/Src/01_ServerBase/Source/DataStruct/RingBuffer.cpp:157-388 | over every sequence of operations from construction no cursor ASSERT fires, and bytes taken by readers followed by the FIFO equal the bytes committed by writers |
| RingFifo.RunIsFifo | 01_Server/Src/01_ServerBase/Source/DataStruct/RingBuffer.cpp:174-388 | the same from any state satisfying the invariant |
| RingFifo.StepIsFifo | 01_Server/Src/01_ServerBase/Source/DataStruct/RingBuffer.cpp:174-388 | each single operation keeps the invariant and moves bytes through the two ends only |
| RingFifo.QuietStepEffect | 01_Server/Src/01_ServerBase/Source/DataStruct/RingBuffer.cpp:174-335 | reservations, tail-skips, the jump at the tail, stores and give-ups never change the FIFO |
| RingFifo.CommitWriteEffect | 01_Server/Src/01_ServerBase/Source/DataStruct/RingBuffer.cpp:337-350 | a write commit of n bytes within its reservation takes n bytes, or all of it for n = 0, never overflows and appends them |
| RingFifo.CommitReadEffect | 01_Server/Src/01_ServerBase/Source/DataStruct/RingBuffer.cpp:352-388 | a read commit of n bytes within its reservation takes n bytes, or all of it for n = 0, never overflows and removes them |
| RingSteps.MisuseExactly | 01_Server/Src/01_ServerBase/Source/DataStruct/RingBuffer.cpp:176-362 | an operation fires an ASSERT exactly for a size of 0, a second reservation of its side, no reservation, or more than was reserved |
| RingSteps.WriterPlace | 01_Server/Src/01_ServerBase/Source/DataStruct/RingBuffer.cpp:184-212 | a grant starts at the write cursor unless it does not fit before the array's end, and then at index 0 with the tail cursor left behind; a refusal changes nothing |
| RingSteps.ReaderFrame | 01_Server/Src/01_ServerBase/Source/DataStruct/RingBuffer.cpp:223-253 | opening a reader moves no cursor except from the tail to index 0, and changes nothing else |
| RingSteps.GiveUpKeepsAll | 01_Server/Src/01_ServerBase/Source/DataStruct/RingBuffer.cpp:322-335 | giving up ends the reservation and leaves cursors, flag and bytes alone, also after a tail-skip |
| RingSteps.FillPlace | 01_Server/Src/01_ServerBase/Include/DataStruct/RingBuffer.h:76-81 | a store lands the given offset into the reservation and changes no other byte |
| RingSteps.CommitWriteExactly | 01_Server/Src/01_ServerBase/Source/DataStruct/RingBuffer.cpp:342-348 | n bytes (all for 0) are committed, the write cursor advances by them modulo the capacity, and the flag is up exactly when it meets the read cursor |
| RingSteps.CommitReadExactly | 01_Server/Src/01_ServerBase/Source/DataStruct/RingBuffer.cpp:357-375 | n bytes (all for 0) are taken; if that empties the FIFO with no writer out the buffer is as constructed, otherwise the read cursor moves on, wrapping at the tail, and the flag is down |
| RingSteps.FlagIsLastCommit | 01_Server/Src/01_ServerBase/Source/DataStruct/RingBuffer.cpp:346-369 | over every run m_isFull is up exactly when the last commit was a write commit that brought the write cursor to the read cursor, whatever has moved since |
| RingGuarantees.Isolation | 01_Server/Src/01_ServerBase/Source/DataStruct/RingBuffer.cpp:185-213 | in every reachable state the writer's range holds no committed byte, the reader's range is the FIFO's head, and the two are disjoint |
| RingGuarantees.ContentsFootprint | 01_Server/Src/01_ServerBase/Source/DataStruct/RingBuffer.cpp:235-253 | the FIFO depends on the committed indices alone |
| RingGuarantees.ReaderStable | 01_Server/Src/01_ServerBase/Source/DataStruct/RingBuffer.cpp:252-282 | no run of writer-side operations changes the bytes under a live reader, and they stay the FIFO's head |
| RingGuarantees.ReaderAvailability | 01_Server/Src/01_ServerBase/Source/DataStruct/RingBuffer.cpp:218-319 | both reader constructors refuse exactly when the FIFO is empty, and otherwise hand out its head, as much as asked for up to the tail |
| RingGuarantees.WriterAvailability | 01_Server/Src/01_ServerBase/Source/DataStruct/RingBuffer.cpp:174-216 | a write reservation is a row of free slots of the size asked for; it is granted exactly when such a row exists below the tail, counting the slots a pending jump at R = T frees, if and only if the request neither spans cursors that met in the middle, nor is barred by a stale full flag, nor has to wait for that jump |
| RingGuarantees.AllWriterAvailability | 01_Server/Src/01_ServerBase/Source/DataStruct/RingBuffer.cpp:256-283 | the open-ended writer is refused only by the flag and takes the free slots up to the array's end or the read cursor |
| RingGuarantees.IsEmptyExact | 01_Server/Src/01_ServerBase/Include/DataStruct/RingBuffer.h:133-136 | IsEmpty agrees with the FIFO being empty if and only if it is not the state R = T, W = 0 |
| RingGuarantees.DestructorExact | 01_Server/Src/01_ServerBase/Source/DataStruct/RingBuffer.cpp:167-172 | the destructor's three ASSERTs hold if and only if nothing is reserved, the FIFO is empty and it is not the state R = T, W = 0 |
| RingGuarantees.FullFlagExact | 01_Server/Src/01_ServerBase/Source/DataStruct/RingBuffer.cpp:346-347 | a raised m_isFull means data reaches all the way to the tail if and only if R = W < T; a lowered one always leaves a free slot below the tail |
| RingGuarantees.SpaceAccounting | 01_Server/Src/01_ServerBase/Source/DataStruct/RingBuffer.cpp:179-215 | data, free space and skipped tail add up to the capacity, wrapped or not |
| RingGuarantees.WasteBelowARequest | 01_Server/Src/01_ServerBase/Source/DataStruct/RingBuffer.cpp:194-201 | over every run the skipped tail is smaller than some CreateWriter request of the run |
| RingGuarantees.HalfOfFreeSpaceIsGranted | 01_Server/Src/01_ServerBase/Source/DataStruct/RingBuffer.cpp:179-202 | unwrapped and not full, any request up to half the free space rounded up is granted, and the bound is sharp |
| RingGuarantees.EmptyOffersWholeCapacity | 01_Server/Src/01_ServerBase/Source/DataStruct/RingBuffer.cpp:184-202 | an empty idle buffer grants its whole capacity if and only if its read cursor is 0 |
| RingGuarantees.ClampStable | 01_Server/Src/01_ServerBase/Source/DataStruct/RingBuffer.cpp:204-246 | while wrapped with data before the tail, no run without a read commit moves R or T, so CreateReader(n) keeps returning min(n, T - R) bytes |
| RingRuns.TwoRoundDrain | 01_Server/Src/01_ServerBase/Source/DataStruct/RingBuffer.cpp:285-388 | from any idle nonempty state one or two rounds of CreateAllReader and commit return the whole FIFO in order and restore the constructed state, after which the whole capacity can be reserved |
| RingRuns.EmptyInTheMiddle | 01_Server/Src/01_ServerBase/Source/DataStruct/RingBuffer.cpp:322-375 | a run that empties the buffer under a live writer leaves both cursors at any chosen middle position |
| RingRuns.IsEmptyMisreports | 01_Server/Src/01_ServerBase/Source/DataStruct/RingBuffer.cpp:194-201 | a reachable state with an empty FIFO in which IsEmpty is false |
| RingRuns.DestructorRefusesDrained | 01_Server/Src/01_ServerBase/Source/DataStruct/RingBuffer.cpp:167-172 | a reachable idle buffer with an empty FIFO that the destructor's ASSERT refuses |
| RingRuns.FullFlagMisreports | 01_Server/Src/01_ServerBase/Source/DataStruct/RingBuffer.cpp:346-347 | a reachable state with free slots, m_isFull raised and every write refused, and one where the flag is up with R = 0 < W |
| RingMessages.MessagesNeverStraddle | 01_Server/Src/01_ServerBase/Source/DataStruct/RingBuffer.cpp:174-388 | if each write commit is a message and reads end on message ends, no message ever straddles the tail, over every run |
| RingMessages.HeadMessageIsContiguous | 01_Server/Src/01_ServerBase/Source/DataStruct/RingBuffer.cpp:218-254 | CreateReader(k) with k at most the head message's length returns exactly its first k bytes |
| RingMessages.TakeHead | 01_Server/Src/01_ServerBase/Source/DataStruct/RingBuffer.cpp:218-378 | reserving the head message and committing reads exactly that message |
| RingMessages.PeekThenTake | 01_Server/Src/99_Test/Source/01_ServerBase/DataStruct/RingBufferTest.cpp:134-151 | peek a header, give up, reserve the packet, commit always succeeds and removes exactly one message |
| RingHandles.ReservationsAreLinear | 01_Server/Src/01_ServerBase/Source/DataStruct/RingBuffer.cpp:23-143 | over every run of create, move, commit, give-up and destruction the active flag is up exactly when there is one live handle, never two, and grants equal settlements plus the open one |
| RingHandles.StepEffect | 01_Server/Src/01_ServerBase/Source/DataStruct/RingBuffer.cpp:23-143 | which handles each operation makes, makes live, kills or removes, and that it counts one grant or one settlement: a moved-from or settled handle is dead, a destroyed live one is settled |
| RingHandles.MisuseExactly | 01_Server/Src/01_ServerBase/Source/DataStruct/RingBuffer.cpp:31-69 | an operation on handles fires an ASSERT exactly when the handle is not live, or a reservation of the side is already out |
| RingHandles.NoHandleNoReservation | 01_Server/Src/01_ServerBase/Source/DataStruct/RingBuffer.cpp:167-170 | when all handles are gone no reservation is active, as the destructor's first two ASSERTs demand, and every grant was settled |
| RingBuffers.RingBuffer.constructor | 01_Server/Src/01_ServerBase/Source/DataStruct/RingBuffer.cpp:157-165 | the constructed object is valid and empty |
| RingBuffers.RingBuffer.CreateWriter | 01_Server/Src/01_ServerBase/Source/DataStruct/RingBuffer.cpp:174-216 | the object takes the specified step, the FIFO is unchanged, and the handle is live exactly when the request was granted; the read side's handle and reservation are untouched |
| RingBuffers.RingBuffer.CreateAllWriter | 01_Server/Src/01_ServerBase/Source/DataStruct/RingBuffer.cpp:256-283 | likewise for the largest contiguous reservation; the read side's handle and reservation are untouched |
| RingBuffers.RingBuffer.CreateReader | 01_Server/Src/01_ServerBase/Source/DataStruct/RingBuffer.cpp:218-254 | likewise for a read of limited size; the write side's handle and reservation are untouched |
| RingBuffers.RingBuffer.CreateAllReader | 01_Server/Src/01_ServerBase/Source/DataStruct/RingBuffer.cpp:285-319 | likewise for the largest contiguous read; the write side's handle and reservation are untouched |
| RingBuffers.RingBuffer.CommitWrite | 01_Server/Src/01_ServerBase/Source/DataStruct/RingBuffer.cpp:337-350 | the FIFO grows by n bytes (the whole reservation for n = 0), isFull says whether the cursors met, the handle dies, the overflow ASSERT holds; the read side's handle and reservation are untouched |
| RingBuffers.RingBuffer.CommitRead | 01_Server/Src/01_ServerBase/Source/DataStruct/RingBuffer.cpp:352-378 | the FIFO loses n bytes (the whole reservation for n = 0), isFull is down, the handle dies, the overflow ASSERT holds; the write side's handle and reservation are untouched |
| RingBuffers.RingBuffer.GiveUpWriter | 01_Server/Src/01_ServerBase/Source/DataStruct/RingBuffer.cpp:322-328 | the reservation ends, the FIFO is unchanged; the read side's handle and reservation are untouched |
| RingBuffers.RingBuffer.GiveUpReader | 01_Server/Src/01_ServerBase/Source/DataStruct/RingBuffer.cpp:329-335 | the reservation ends, the FIFO is unchanged; the write side's handle and reservation are untouched |
| RingBuffers.RingBufferWriter.Move | 01_Server/Src/01_ServerBase/Source/DataStruct/RingBuffer.cpp:105-112 | the reservation passes to the new handle, the old one is dead, the buffer is unchanged; the read side's handle and reservation are untouched |
| RingBuffers.RingBufferReader.Move | 01_Server/Src/01_ServerBase/Source/DataStruct/RingBuffer.cpp:31-38 | the reservation passes to the new handle, the old one is dead, the buffer is unchanged; the write side's handle and reservation are untouched |
| RingBuffers.RingBufferWriter.Fill | 01_Server/Src/01_ServerBase/Include/DataStruct/RingBuffer.h:76-81 | storing through the writer's pointer puts the data at that offset of the reservation, changes no other byte and leaves the FIFO alone |
| RingBuffers.RingBufferWriter.Commit | 01_Server/Src/01_ServerBase/Source/DataStruct/RingBuffer.cpp:131-136 | commits the given size (0 for all) to the owner and dies; the read side's handle and reservation are untouched |
| RingBuffers.RingBufferReader.Commit | 01_Server/Src/01_ServerBase/Source/DataStruct/RingBuffer.cpp:56-61 | commits the given size (0 for all) to the owner and dies; the write side's handle and reservation are untouched |
| RingBuffers.RingBufferWriter.Destroy | 01_Server/Src/01_ServerBase/Source/DataStruct/RingBuffer.cpp:97-103 | a live handle commits its whole reservation, a dead one does nothing; the read side's handle and reservation are untouched |
| RingBuffers.RingBufferReader.Destroy | 01_Server/Src/01_ServerBase/Source/DataStruct/RingBuffer.cpp:23-29 | a live handle commits its whole reservation, a dead one does nothing; the write side's handle and reservation are untouched |
| RingClients.PassThrough | 01_Server/Src/99_Test/Source/01_ServerBase/DataStruct/RingBufferTest.cpp:67-98 | with a filled writer and a reader out at once, the writer moved and committed under the reader and the reader committed last, what is taken and what is left equal what was there and the message, if it was accepted |
| SendProofs.SendPathIsSafe | 01_Server/Src/02_ServerEngine/Source/Boost/BoostSession.cpp:76-158 | in every reachable state, whatever the network answers: m_isSending holds exactly when one and only one activity is on its way to or from a write, queued buffers have one coming, and what was accepted is what was settled, is in flight and is queued, in order |
| SendProofs.OneWriteOutstanding | 01_Server/Src/02_ServerEngine/Source/Boost/BoostSession.cpp:115-139 | at most one activity holds in-flight buffers, so there is at most one async_write, without a strand |
| SendProofs.Conservation | 01_Server/Src/02_ServerEngine/Include/Boost/BoostSession.h:21 | over every run the accepted buffers are the delivered, dropped, in-flight and queued ones, in number and as multisets, the last two at most 1024 |
| SendClosing.AcceptedExactly | 01_Server/Src/02_ServerEngine/Source/Boost/BoostSession.cpp:83-106 | over every run the accepted buffers are those of the Sends that found fewer than 1024 queued, in that order |
| SendClosing.ClosedExactly | 01_Server/Src/02_ServerEngine/Source/Boost/BoostSession.cpp:98-153 | the socket is closed only after a failed write or a Send that found 1024 queued, and where a run stops it is closed if and only if there was either |
| SendDelivery.DeliveryOrderExactly | 01_Server/Src/02_ServerEngine/Source/Boost/BoostSession.cpp:141-158 | over every run, whatever is sent: while no write has succeeded after another failed, the accepted buffers are the delivered, then the dropped, then those in flight and queued; where a run stops, nothing was delivered after something was dropped if and only if no write succeeded after another failed |
| SendDelivery.WireKeepsOrder | 01_Server/Src/02_ServerEngine/Source/Boost/BoostSession.cpp:115-158 | over every run and for any network, the wire carries accepted bytes, each at most once and in the order of acceptance |
| SendDelivery.WireSkipsNothingExactly | 01_Server/Src/02_ServerEngine/Source/Boost/BoostSession.cpp:115-158 | the wire carries the accepted bytes from the first one on, none skipped, if and only if no write sends anything while a settled byte is missing; then it is a prefix of the accepted bytes |
| SendDelivery.PrefixDelivery | 01_Server/Src/02_ServerEngine/Source/Boost/BoostSession.cpp:115-158 | over a stream socket, with or without a failure, both conditions above hold: the delivered buffers are a prefix of the accepted ones, the dropped ones come next, and the wire carries a prefix of the accepted bytes |
| SendDelivery.PrefixNeedsStream | 01_Server/Src/02_ServerEngine/Source/Boost/BoostSession.cpp:149-153 | a run, for any two buffers whose bytes can tell, in which a write started between lowering the flag and closing the socket succeeds after a failure: the second buffer is delivered and on the wire, the first is not |
| SendProofs.FlushingTerminates | 01_Server/Src/02_ServerEngine/Source/Boost/BoostSession.cpp:115-158 | without further sends every run has bounded length and at most two write completions |
| SendProofs.NoDeadlock | 01_Server/Src/02_ServerEngine/Source/Boost/BoostSession.cpp:76-158 | an unfinished activity always has a step, also over a stream socket |
| SendProofs.EnabledExactly | 01_Server/Src/02_ServerEngine/Source/Boost/BoostSession.cpp:76-158 | any Send and any answer to an outstanding write can come next, and every other unfinished activity can step |
| SendDelivery.QuietMeansDrained | 01_Server/Src/02_ServerEngine/Source/Boost/BoostSession.cpp:117-125 | where runs stop the queue is empty and the flag down, everything accepted was delivered if and only if no write failed, and then over a stream socket all its bytes are on the wire |
| BoostSessions.BoostSession.Send | 01_Server/Src/02_ServerEngine/Source/Boost/BoostSession.cpp:76-113 | returns false exactly when the buffer was not queued, which is at 1024 queued; posts a flush exactly when it raised the flag |
| BoostSessions.BoostSession.FlushSendQueue | 01_Server/Src/02_ServerEngine/Source/Boost/BoostSession.cpp:115-139 | starts one write of exactly the queued buffers in order, which become the ones in flight, or lowers the flag |
| BoostSessions.BoostSession.CompleteSend | 01_Server/Src/02_ServerEngine/Source/Boost/BoostSession.cpp:141-158 | an error drops the queue, lowers the flag and closes; success writes the next batch or lowers the flag |
| Packets.DrainIsLossless | 01_Server/Src/02_ServerEngine/Source/EngineCommon/Packet.cpp:8-25 | for every byte stream, the packets framed from it encode back to it, up to the leftover |
| Packets.DrainInvertsEncode | 01_Server/Src/02_ServerEngine/Include/EngineCommon/Packet.h:10-20 | framing an encoded packet list and a partial packet gives the list and the part |
| Packets.DrainAppend | 01_Server/Src/02_ServerEngine/Source/EngineCommon/Packet.cpp:8-25 | framing a stream in two goes is framing it at once |
| Packets.RejectedExactly | 01_Server/Src/02_ServerEngine/Include/EngineCommon/Packet.h:11-18 | for every byte stream, in raw bytes: the leftover is rejected exactly when its first four bytes do not announce 4 to 8191 bytes and a nonzero id, otherwise it is shorter than announced |
| Packets.RestIsPartial | 01_Server/Src/02_ServerEngine/Include/EngineCommon/Packet.h:15-18 | the leftover has no complete packet at its front and, if valid, is below the maximum packet size |
| Packets.EncodedFront | 01_Server/Src/02_ServerEngine/Include/EngineCommon/Packet.h:11-19 | a sendable packet's header parses as valid with its size and id, at the front of any stream |
| RecvBuffers.LoadCommitAppends | 01_Server/Src/01_ServerBase/Source/DataStruct/RecvBuffer.cpp:13-27 | bytes stored in the writable span and committed follow the readable ones |
| RecvBuffers.CompactKeepsReadable | 01_Server/Src/01_ServerBase/Source/DataStruct/RecvBuffer.cpp:35-52 | compacting keeps the readable bytes, resets an empty buffer to its whole capacity, does nothing while the minimum is free, and otherwise moves to the front, which makes the minimum writable if the bytes leave it |
| RecvBuffers.RecvBuffer.constructor | 01_Server/Src/01_ServerBase/Source/DataStruct/RecvBuffer.cpp:3-11 | the constructed buffer is empty and valid under the bounds asserted |
| RecvBuffers.RecvBuffer.CommitWrite | 01_Server/Src/01_ServerBase/Source/DataStruct/RecvBuffer.cpp:23-27 | within the writable size, appends the first bytes of the writable span to the readable ones |
| RecvBuffers.RecvBuffer.Consume | 01_Server/Src/01_ServerBase/Source/DataStruct/RecvBuffer.cpp:29-33 | within the readable size, drops the front |
| RecvBuffers.RecvBuffer.Compact | 01_Server/Src/01_ServerBase/Source/DataStruct/RecvBuffer.cpp:35-58 | resets, leaves or moves as specified, with the readable bytes unchanged |
| Receivers.ChunkingIsInvisible | 01_Server/Src/02_ServerEngine/Source/Boost/BoostSession.cpp:36-73 | for every way of cutting a stream into receives, packets handed on, leftover and closing depend on the stream alone |
| Receivers.PacketsArriveInOrder | 01_Server/Src/02_ServerEngine/Source/EngineCommon/Packet.cpp:8-25 | packets sent back to back are handed on in order, with a proper prefix of the next one kept, and all of them once all has come |
| Receivers.NeverStalls | 01_Server/Src/01_ServerBase/Source/DataStruct/RecvBuffer.cpp:9-10 | short of an invalid header every chunk of up to the minimum writable size can be received |
| Receivers.AlwaysRoom | 01_Server/Src/02_ServerEngine/Include/Boost/BoostSession.h:20 | after every receive the leftover is below the maximum packet size and the minimum is writable |
| Receivers.ReceivesExactly | 01_Server/Src/02_ServerEngine/Source/Boost/BoostSession.cpp:34-41 | after any run one more chunk is received if and only if no header was invalid and it fits the writable span |
| Receivers.MovesAreLogged | 01_Server/Src/01_ServerBase/Source/DataStruct/RecvBuffer.cpp:35-52 | a receive logs a move of its unread bytes exactly when it stays open, leaves some and has less than the minimum free behind them, and they are then at the front |
| Receivers.EachByteMovedAtMostOnce | 01_Server/Src/01_ServerBase/Source/DataStruct/RecvBuffer.cpp:44-51 | the stream ranges moved by memmove over a run are disjoint, so bytes moved never exceed bytes received |
| Receivers.PacketReceiver.ProcessRecvPackets | 01_Server/Src/02_ServerEngine/Source/Boost/BoostSession.cpp:52-74 | the loop takes out exactly the packets of the framing rule, and its result, on which the caller closes, is false exactly on an invalid header |
| Receivers.PacketReceiver.DeserializePacket | 01_Server/Src/02_ServerEngine/Source/EngineCommon/Packet.cpp:8-25 | in raw bytes: takes out the front packet when all the bytes it announces are there, reports a header with a size outside 4 to 8191 or an id of 0, and otherwise leaves the buffer alone |
| Receivers.PacketReceiver.CompleteReceive | 01_Server/Src/02_ServerEngine/Source/Boost/BoostSession.cpp:43-62 | an error closes; otherwise commit, drain, and close or compact |
| SerialGenerators.DistinctExactly | 01_Server/Src/01_ServerBase/Source/DataStruct/SerialGenerator.cpp:12-22 | for every clock, a generator's serials are pairwise distinct if and only if no reading returns after another and none serves more than 65536 of them |
| SerialGenerators.IncreasingExactly | 01_Server/Src/01_ServerBase/Source/DataStruct/SerialGenerator.cpp:12-22 | for every clock, they strictly increase if and only if the clock never goes back and stays within that limit |
| SerialGenerators.ReturnRepeats | 01_Server/Src/01_ServerBase/Source/DataStruct/SerialGenerator.cpp:14-18 | whenever a clock leaves a reading and comes back to it, some serial is repeated |
| SerialGenerators.SerialsUniqueAcrossGenerators | 01_Server/Src/01_ServerBase/Source/DataStruct/SerialGenerator.cpp:4-22 | over generators with distinct server and thread ids and any clocks, all serials of the whole run are pairwise distinct if and only if each generator's clock meets the two conditions |
| SerialGenerators.IdsKeepApart | 01_Server/Src/01_ServerBase/Source/DataStruct/SerialGenerator.cpp:4-21 | generators with distinct ids never produce a common serial, whatever their clocks do |
| SerialGenerators.SerialIsPlace | 01_Server/Src/01_ServerBase/Source/DataStruct/SerialGenerator.cpp:14-21 | for every clock, a serial packs its reading, the ids and its place in the current run of equal readings modulo 65536 |
| SerialGenerators.OrIsSum | 01_Server/Src/01_ServerBase/Source/DataStruct/SerialGenerator.cpp:21-21 | the source's shifts and bitwise "or" lay the four fields out side by side |
| SerialGenerators.PackFits | 01_Server/Src/01_ServerBase/Source/DataStruct/SerialGenerator.cpp:21-21 | the layout fits 64 bits and gives back the clock and the ids |
| SerialGenerators.SerialGenerator.CreateSerial | 01_Server/Src/01_ServerBase/Source/DataStruct/SerialGenerator.cpp:12-22 | takes the specified step and returns a 64-bit serial whose high half is the time cut to 32 bits |

## Left out

- Handle move assignment: with one live handle per side its ASSERTs allow self-assignment only.
- Concurrent use of one ring buffer: its cursors are not atomic, so operations interleave as whole steps.
- The ring buffer's destructor as a method: RingGuarantees.DestructorExact states when its three ASSERTs hold.
- Typed access through handle pointers (`As`, `GetPtr` of a type): spans are index ranges.
- Boost.Asio, socket options and real threads: the environment is a set of nondeterministic steps.
- Lifetime of the session object captured by posted handlers.
- Receive errors within a run: an errored completion only closes, which the method states and the runs do not repeat.
- Packet bodies, handlers and the dispatcher: bodies are opaque bytes.
- Network engine, acceptor, containers, logging, stopwatch, signal handling: plumbing or thin wrappers, easy properties.
