# vNerveBiLiveReceptor: a Dafny model of the supervisor and worker core

The supervisor assigns live rooms to workers; the workers read the rooms' streams and send
what they receive back. This project models the parts of both programs that carry state,
and proves what they keep over all inputs and all runs. `dafny verify dfyconfig.toml`
checks it.

| File | What it holds |
|---|---|
| `Prelude.dfy` | an option type, the smaller and the larger of two integers |
| `Bytes.dfy` | bytes, 32-bit integers on a little-endian host, `memmove` and `memcpy` |
| `Framing.dfy` | the reference: a decoder that sees a whole byte stream at once, for both header conventions |
| `BiliPacket.dfy` | the in-place reassembler and packet handler for the live server's stream, and its connection |
| `SimpleProto.dfy` | the control-protocol reassembler and its read handler |
| `Wire.dfy` | the packet generators and what the receivers read back |
| `WriteQueue.dfy` | the socket write queue as steps on an executor, and the class that performs them |
| `SchedulerModel.dfy` | the scheduler as a log of steps over three tables, and its invariant |
| `SchedulerRuns.dfy` | theorems about every legal log |
| `SchedulerCheck.dfy` | what one periodic check decides: ceiling, first-fit search, turns of the rooms |
| `SchedulerHistory.dfy` | every field of the tables read off the log |
| `SchedulerTrail.dfy` | what each phase of a check writes to the log |
| `SchedulerTables.dfy` | relations between the tables before and after each phase |
| `SchedulerDecisions.dfy` | what a check decides, in terms of tables, configuration and clock |
| `SchedulerMessages.dfy` | what a worker's messages lead to, from their bytes |
| `Scheduler.dfy` | `scheduler_session`: the handlers over the three tables |
| `SchedulerOutcome.dfy` | what a check that ran, and a room list before it, guarantee |
| `Dedup.dfy` | the de-duplication window and the data path through it |
| `EndToEnd.dfy` | both directions of the control path, from scheduler table to worker and back |

How the pieces are tied together:

- Each reassembler is a method over one `array<byte>`, proved equal to a function of the
  carried state and the bytes read; `Framing` proves that any cutting of a stream into reads
  gives what decoding it whole gives, and that decoding concatenated packets gives the packets.
- The scheduler's class appends a step to `log` for every message it sends, every payload it
  forwards and every change it makes. `Valid()` says that the log is legal and that the tables
  are what it leads to, so the lemmas about legal logs hold of the object in every state.
  Iteration order over the hash maps, ties in sorting and every clock reading are arbitrary.
- Serialisation and zlib are uninterpreted functions; the payload bytes are left with
  arbitrary values after serialisation.

Where the code and its own documentation or evident intent part, the model follows the code:

- `handle_simple_message` skips four bytes too few after a frame too long for its buffer
  (src/shared/simple_worker_proto.cpp:50), and more than 2^63 bytes when the frame's payload is
  shorter than the bytes at hand. `TracksExactlyFittingStreams` and `HandsOnExactlyFittingStreams` say exactly
  when what it carries and what it hands on is nevertheless right, and `OversizeLosesNextFrame` shows a lost frame. Its
  debug assertion on line 47 can fail for the same frames and is not modelled.
- `simple_worker_proto_handler::reset` keeps what was carried from the old connection, and the
  cancelled read of the old socket, when its abort arrives, takes the new socket away
  (src/shared/simple_worker_proto_handler.cpp:31-39 and 61-69). `ResetExactlyWhenIdle` says
  exactly when neither happens; `StaleBytesMisdirectCall` shows a worker opening the wrong room.
- The aborted completion of a write that a reset cancelled releases buffers of the new
  connection (src/shared/asio_socket_write_helper.cpp:56-61). `ResetStaysWholeExactlyWhenIdle`
  says exactly when no run after a reset loses anything, and `StaleCompletionLosesBuffer` shows a loss.
- A worker's limit is tested with `>` (src/supervisor/worker_scheduler.cpp:351), so the limit
  kept is `max_rooms + 1`. `LimitsKeptExactlyBySmallQuotas`: every run stays within the limit
  itself if and only if a check hands a worker at most one task.
- A room that is listed again before it was purged stays inactive and is purged
  (src/supervisor/worker_scheduler.cpp:64-78): `UpdateRoomLists` and `RoomListTakesEffect` say
  exactly when a list takes effect nevertheless.
- Purging an inactive room penalises its workers, because `delete_task` defaults to doing so
  (src/supervisor/worker_scheduler.cpp:329), although src/supervisor/worker_scheduler.h:59 says
  it should not.
- The checksum is read without a byte-order conversion (src/supervisor/worker_scheduler.cpp:490);
  `UnconvertedInjective` and `UnconvertedZero` say why that does no harm.
- The op codes in the comment of src/shared/simple_worker_proto.h:31-32 are the other way round
  than the constants on lines 14-15; the constants are used.
- After a failed authentication the source goes on with the worker it has just deleted
  (src/supervisor/worker_scheduler.cpp:451-462). The intended return is modelled.

## Model

| member | source | states |
|---|---|---|
| Bytes.NetworkRoundTrip | src/worker/simple_worker_proto_generator.cpp:10-19 | a 32-bit integer stored by a generator is read back unchanged by the receivers |
| Bytes.NetworkDigits | src/worker/simple_worker_proto_generator.cpp:10-19 | the bytes written for an integer are its two's complement digits, highest first |
| Bytes.UnconvertedIsReversed | src/supervisor/worker_scheduler.cpp:490 | the checksum read without conversion is the one with reversed bytes |
| Bytes.UnconvertedInjective | src/supervisor/worker_scheduler.cpp:490 | two checksums that the supervisor reads as the same were the same when sent |
| Bytes.UnconvertedZero | src/supervisor/worker_scheduler.cpp:490-493 | the supervisor reads zero exactly when zero was sent |
| Framing.ChunkLaw | src/worker/bili_packet.cpp:18-95 | decoding a stream and resuming with more bytes is decoding all of it |
| Framing.ChunkIndependence | src/worker/bili_packet.cpp:18-95 | any chunking gives the frames and the residual of the whole stream |
| Framing.DecodeOfPackets | src/worker/bili_packet.cpp:66-91 | of any packets sent, exactly those that fit the buffer are delivered, in order, and nothing is kept |
| Framing.ResidualBounds | src/worker/bili_packet.cpp:29-85 | the carried bytes are a suffix of the stream and never fill the buffer, and a carried skip is positive |
| BiliPacket.FirstPacket | src/worker/bili_packet.cpp:41-85 | the order of the header tests, and what each of them delivers and carries |
| BiliPacket.DeliverThen | src/worker/bili_packet.cpp:89-91 | delivering a continued decoding is delivering its parts, unless the first part threw |
| BiliPacket.DeliverExtends | src/worker/bili_packet.cpp:18-95 | what a stream has delivered never depends on what follows it, and a stopped stream stays stopped |
| BiliPacket.CompressedIsFlattened | src/worker/bili_packet.cpp:138-167 | a compressed packet delivers exactly what the whole packets inside it deliver, and an incomplete one at the end is dropped |
| BiliPacket.FrontPacket | src/worker/bili_packet.cpp:66-91 | a packet that fits delivers its messages before what follows it, one too long delivers nothing |
| BiliPacket.PlainPacketDelivers | src/worker/bili_packet.cpp:168-211 | from its bytes: operation 5 delivers exactly the message the payload serialises to, operation 3 with four bytes the popularity, any other nothing |
| BiliPacket.CompressedPacketDelivers | src/worker/bili_packet.cpp:104-167 | from its bytes: version 2 delivers what a stream of the decompressed content does, or nothing if it does not decompress into 262144 bytes |
| BiliPacket.BadHeaderThrows | src/worker/bili_packet.cpp:56-64 | a wrong header length delivers nothing and closes |
| BiliPacket.HandleJson | src/worker/bili_packet.cpp:171-184 | the message is serialised from the payload as received, and nothing outside the payload is changed although the byte behind it is patched |
| BiliPacket.HandlePacket | src/worker/bili_packet.cpp:119-213 | the packet's messages, and all bytes before it and from its end onward as they were |
| BiliPacket.ParseWindow | src/worker/bili_packet.cpp:41-94 | the loop over one read delivers and carries what the reference decoder does, and both assertions in it hold |
| BiliPacket.HandleBuffer | src/worker/bili_packet.cpp:18-95 | one read, from carried state to carried state, is the reference decoder resumed |
| BiliPacket.PlainTcpConnection.OnReceive | src/worker/bili_conn_plain_tcp.cpp:191-220 | deliveries and carried state are those of the whole stream so far; an aborted read changes nothing, a failed one closes and is parsed nevertheless, and a failure is reported once |
| BiliPacket.PlainTcpConnection.ReadAll | src/worker/bili_conn_plain_tcp.cpp:43-55 | however the network sizes the reads, a stream delivers what it delivers whole, and the next read is never empty |
| SimpleProto.ParseAgrees | src/shared/simple_worker_proto.cpp:23-70 | one call leaves the reference residual exactly when no frame in it is too long, and always hands on the same frames |
| SimpleProto.FittingStreamExact | src/shared/simple_worker_proto.cpp:8-71 | whatever the chunking, frames that fit are delivered as by the whole-stream decoder |
| SimpleProto.OversizeDiverges | src/shared/simple_worker_proto.cpp:42-51 | once a frame is too long, some read leaves a wrong carried state |
| SimpleProto.TracksExactlyFittingStreams | src/shared/simple_worker_proto.cpp:42-51 | the reassembler tracks the stream after every read if and only if no frame is too long for the buffer |
| SimpleProto.HandsOnExactlyFittingStreams | src/shared/simple_worker_proto.cpp:42-51 | after every read, and however the stream goes on with frames that fit, the frames handed on are right if and only if no frame was too long for the buffer |
| SimpleProto.OversizeLosesNextFrame | src/shared/simple_worker_proto.cpp:42-51 | a concrete stream on which a due frame is not delivered |
| SimpleProto.OversizeSkips | src/shared/simple_worker_proto.cpp:42-51 | what is skipped after too long a frame: the announced length minus the bytes at hand, modulo 2^64 |
| SimpleProto.SkipWorksOff | src/shared/simple_worker_proto.cpp:14-24 | a skip longer than a read is shortened by it, a shorter one is over within it and the rest is parsed |
| SimpleProto.WindowNeverEmpty | src/shared/simple_worker_proto_handler.cpp:51-54 | what a call leaves is an incomplete frame that fits or a skip, and the window of the next read is never empty |
| SimpleProto.ParseWindow | src/shared/simple_worker_proto.cpp:23-70 | the loop hands on and leaves what the value-level call does, and the assertion at its head holds |
| SimpleProto.HandleSimpleMessage | src/shared/simple_worker_proto.cpp:8-71 | frames handed on, offset and skip are those of the value-level call |
| SimpleProto.ProtoHandler.OnReceive | src/shared/simple_worker_proto_handler.cpp:59-79 | bytes are parsed with what was carried and the next read is started on the present socket; an abort or error takes the socket away, an error after calling the close handler |
| SimpleProto.ProtoHandler.Reset | src/shared/simple_worker_proto_handler.cpp:31-39 | a new socket starts from the old carried state, while the old reads stay outstanding |
| SimpleProto.FailuresClose | src/shared/simple_worker_proto_handler.cpp:59-79 | over any completions the close handler is called once for each failed read, the first read without bytes takes the socket away, and then no read is started |
| SimpleProto.ResetStep | src/shared/simple_worker_proto_handler.cpp:31-57 | a reset starts a read on the new socket if it is live and leaves everything else as it was |
| SimpleProto.ResetExactlyWhenIdle | src/shared/simple_worker_proto_handler.cpp:31-79 | whatever arrives after a reset, in whatever reads, is handed on as by the whole-stream decoder and reading goes on, if and only if nothing was carried and no read was outstanding |
| SimpleProto.CarriedStateMisreads | src/shared/simple_worker_proto_handler.cpp:72-76 | from any carried state, a stream on the new socket of which the wrong frames are handed on |
| SimpleProto.OldReadStopsReading | src/shared/simple_worker_proto_handler.cpp:61-69 | from any outstanding read, a sequence of completions after which the new socket is no longer read |
| Wire.CallRoundTrip | src/worker/supervisor_session.cpp:53-82 | an assign or unassign payload leads to exactly that call with the same room |
| Wire.CallsExactly | src/worker/supervisor_session.cpp:53-82 | which bytes open a room, which close one, and that all others are ignored |
| Wire.ReadyRoundTrip | src/worker/simple_worker_proto_generator.cpp:28-35 | the supervisor reads the limit and the zero-padded code |
| Wire.FailedRoundTrip | src/worker/simple_worker_proto_generator.cpp:21-26 | the supervisor reads the failed room |
| Wire.DataRoundTrip | src/worker/simple_worker_proto_generator.cpp:37-57 | the supervisor reads room, routing key and body as sent and the checksum byte-reversed |
| Wire.PayloadExactly | src/supervisor/worker_scheduler.cpp:423-512 | what the supervisor reads from any payload, malformed ones included |
| Wire.TextExactly | src/supervisor/worker_scheduler.cpp:503-504 | a routing key is what stands before the first NUL, or the whole field |
| Wire.SamePrefixIsSameText | src/supervisor/worker_scheduler.cpp:451-452 | the bounded comparison holds exactly when the texts before the first NUL are equal |
| Wire.AuthenticationExact | src/supervisor/worker_scheduler.cpp:89-94 | a ready message is accepted exactly when the two codes are the same |
| Wire.FramedIsPacket | src/shared/simple_worker_proto.cpp:40-66 | every generated packet is one frame whose payload is what was framed |
| Wire.CallPacketBytes | src/supervisor/simple_worker_proto_generator.cpp:7-29 | the nine bytes of an assign or unassign packet |
| Wire.FailedPacketBytes | src/worker/simple_worker_proto_generator.cpp:21-26 | the nine bytes of a failure packet |
| Wire.ReadyPacketBytes | src/worker/simple_worker_proto_generator.cpp:28-35 | the bytes of a ready packet |
| Wire.DataPacketBytes | src/worker/simple_worker_proto_generator.cpp:37-57 | the bytes of a data packet |
| Wire.GenerateCallPacket | src/supervisor/simple_worker_proto_generator.cpp:7-29 | the bytes written for an assign or unassign |
| Wire.GenerateRoomFailedPacket | src/worker/simple_worker_proto_generator.cpp:21-26 | the bytes written for a failed room |
| Wire.GenerateWorkerReadyPacket | src/worker/simple_worker_proto_generator.cpp:28-35 | the bytes written for a ready worker, the code padded with zeros |
| Wire.GenerateWorkerDataPacket | src/worker/simple_worker_proto_generator.cpp:37-57 | the bytes written for data, field by field through one pointer |
| Wire.SupervisorSession.OnSupervisorMessage | src/worker/supervisor_session.cpp:53-82 | the calls performed are those the message stands for |
| WriteQueue.EveryBufferAccountedFor | src/shared/asio_socket_write_helper.cpp:56-113 | in every run, errors and resets included, each accepted buffer is posted, waiting or released, exactly once |
| WriteQueue.LiveRunDelivers | src/shared/asio_socket_write_helper.cpp:17-113 | in every undisturbed run one write is in flight exactly when buffers wait, it covers a prefix of them, and the bytes written are a prefix of those submitted |
| WriteQueue.ReleasedInOrder | src/shared/asio_socket_write_helper.cpp:72-81 | on one socket buffers are released in the order in which they were accepted |
| WriteQueue.WriteStartsExactly | src/shared/asio_socket_write_helper.cpp:17-70 | in every state a step starts a write exactly when the first buffer joins an empty deque or one completed without abort and buffers are left, on a live socket, and of all that wait |
| WriteQueue.ReleasedWhen | src/shared/asio_socket_write_helper.cpp:56-92 | in every state what each step releases |
| WriteQueue.WriteStep | src/shared/asio_socket_write_helper.cpp:94-112 | a buffer written without a socket is released at once, one written with a socket is posted |
| WriteQueue.ResetStaysWholeExactlyWhenIdle | src/shared/asio_socket_write_helper.cpp:56-112 | after any run whose buffers are not empty, every run after a reset carries the new stream whole if and only if no write was outstanding |
| WriteQueue.StaleCompletion | src/shared/asio_socket_write_helper.cpp:56-70 | an old write's completion, however it ends, leaves the new stream whole if and only if no buffer waits |
| WriteQueue.StaleCompletionLosesBuffer | src/shared/asio_socket_write_helper.cpp:83-112 | a first-in-first-out run in which a buffer is released unsent |
| WriteQueue.SocketWriteHelper.StartAsyncWrite | src/shared/asio_socket_write_helper.cpp:17-54 | one write of all waiting buffers is started, empty leading buffers included, if the socket is live |
| WriteQueue.SocketWriteHelper.DeleteFirstNBuffers | src/shared/asio_socket_write_helper.cpp:72-81 | the first n buffers, or all if fewer, are released in order |
| WriteQueue.SocketWriteHelper.Write | src/shared/asio_socket_write_helper.cpp:94-103 | the buffer is posted, or released at once without a socket |
| WriteQueue.SocketWriteHelper.RunPosted | src/shared/asio_socket_write_helper.cpp:102-112 | the oldest posted buffer joins the queue, and a write starts if none was in process |
| WriteQueue.SocketWriteHelper.OnWritten | src/shared/asio_socket_write_helper.cpp:56-70 | buffers are released first, then an abort stops, and anything else goes on writing |
| WriteQueue.SocketWriteHelper.Reset | src/shared/asio_socket_write_helper.cpp:83-92 | all waiting buffers are released while an old write stays outstanding |
| Dedup.ExpiryExact | src/supervisor/deduplicate_context.cpp:11-20 | an expiry leaves exactly the entries not too old if and only if the old ones are all in front |
| Dedup.ExpiryOfOrderedEntries | src/supervisor/deduplicate_context.cpp:11-20 | with add times that never decrease it always does |
| Dedup.AcceptedTwice | src/supervisor/deduplicate_context.cpp:5-20 | two accepted adds of one checksum have an expiry between them past the first plus the threshold |
| Dedup.RunUnique | src/supervisor/deduplicate_context.h:28-34 | checksums in the window are unique after every run |
| Dedup.DeduplicateContext.CheckAndAddAt | src/supervisor/deduplicate_context.cpp:5-9 | the add is accepted exactly when the checksum is not in the window, and both indices agree |
| Dedup.DeduplicateContext.Expire | src/supervisor/deduplicate_context.cpp:11-20 | the loop drops the stale front and both indices agree |
| Dedup.PublishedTwice | src/supervisor/global_context.cpp:43-47 | two published messages of one nonzero checksum, as their senders computed it, have an expiry between them |
| Dedup.HeldBackByOwnChecksum | src/supervisor/global_context.cpp:43-47 | a message is held back only because one of the same checksum was published before it |
| Dedup.InWindowExactly | src/supervisor/deduplicate_context.cpp:5-20 | with ordered add times a checksum is in the window if and only if it was accepted and no expiry since was past it |
| Dedup.HeldBackExactly | src/supervisor/global_context.cpp:43-47 | a message is held back if and only if one of its nonzero checksum, published before it, has not expired since |
| SchedulerModel.StepKeeps | src/supervisor/worker_scheduler.cpp:104-213 | every step keeps the invariant, and all but the two that drop a worker's tasks keep room counters exact |
| SchedulerModel.EveryRunKeepsInv | src/supervisor/worker_scheduler.cpp:104-523 | in every reachable state tasks have known owners, worker counters are exact and within the limit plus one, workers that are not ready have no tasks, and room counters are never too low |
| SchedulerRuns.RecountHolds | src/supervisor/worker_scheduler.cpp:203-213 | room counters stay exact from a recount until a worker's tasks are dropped without notice |
| SchedulerRuns.LogRebuildsTasks | src/supervisor/worker_scheduler.cpp:104-190 | folding the messages and drops of a run rebuilds the task keys; assigns are for absent pairs, unassigns for present ones |
| SchedulerRuns.TaskLossIsLogged | src/supervisor/worker_scheduler.cpp:104-190 | a pair that left the table was unassigned, failed, or dropped with its worker |
| SchedulerRuns.ForwardedDataIsEntitled | src/supervisor/worker_scheduler.cpp:473-513 | every forwarded payload follows a ready message and an assignment that were not undone |
| SchedulerRuns.QuotaPerCollection | src/supervisor/worker_scheduler.cpp:285-294 | one collection grants a worker at most its quota and at most one task beyond its limit |
| SchedulerRuns.SmallQuotaStaysWithinLimit | src/supervisor/worker_scheduler.cpp:285-294 | a quota within what is left never takes a worker over its limit |
| SchedulerRuns.LimitsKeptExactlyBySmallQuotas | src/supervisor/worker_scheduler.cpp:285-294 | all runs with one quota keep every worker within its limit if and only if the quota is at most one |
| SchedulerRuns.SmallQuotasKeepLimits | src/supervisor/worker_scheduler.cpp:345-359 | in every run in which no check hands a worker more than one task, nobody is ever over its limit |
| SchedulerRuns.LimitExceeded | src/supervisor/worker_scheduler.cpp:350-357 | for every larger quota, a run of a connection, a ready message, a room list and a check after which a worker has one task more than its limit |
| SchedulerRuns.PenaltyStands | src/supervisor/worker_scheduler.cpp:151-163 | with a clock that never goes back a penalty is not shortened without a reset |
| SchedulerRuns.PenaltyBlocksAssignment | src/supervisor/worker_scheduler.cpp:287-294 | a penalised worker is given a task only by a check that collected before the penalty or started after it ran out, unless reset in between |
| SchedulerRuns.RoomHoldsAtMostAllWorkers | src/supervisor/worker_scheduler_types.h:84-96 | a room has at most one task for each worker |
| SchedulerRuns.SentCallsMatchTasks | src/supervisor/worker_scheduler.cpp:242-254 | the rooms a worker was told to open and not to close are those the table lists for it |
| SchedulerHistory.LogRebuildsOwners | src/supervisor/worker_scheduler.cpp:59-127 | folding connections and deletions, and rooms listed and purged, rebuilds the keys of both tables |
| SchedulerHistory.AnnouncedLimitStands | src/supervisor/worker_scheduler.cpp:459-464 | a worker is ready with the limit it announced until it is reset |
| SchedulerHistory.SilentWorkerIsNotReady | src/supervisor/worker_scheduler.cpp:111-120 | a worker that was connected or reset is not ready and has no limit until it announces itself |
| SchedulerHistory.LastContact | src/supervisor/worker_scheduler.cpp:445-447 | a worker's time of last contact is that of its last message or of its connection |
| SchedulerHistory.AllowedSince | src/supervisor/worker_scheduler.cpp:151-163 | new tasks are allowed from the end of the last penalty, the last reset or the beginning, whichever came last; a cut changes nothing |
| SchedulerHistory.LastCheck | src/supervisor/worker_scheduler.cpp:267-271 | the time of the last check is that of the last that began |
| SchedulerHistory.LastData | src/supervisor/worker_scheduler.cpp:485-488 | a task's age counts from its last data or from the check that assigned it |
| SchedulerHistory.LastMark | src/supervisor/worker_scheduler.cpp:492-501 | a room's last payload without checksum is the last that was marked |
| SchedulerHistory.ActiveSince | src/supervisor/worker_scheduler.cpp:64-78 | a room is active from the list that first names it until one that does not |
| SchedulerCheck.FirstFitIsLeast | src/supervisor/worker_scheduler.cpp:345-359 | the search finds the first listed worker that can take the room |
| SchedulerCheck.GreedyIsComplete | src/supervisor/worker_scheduler.cpp:345-359 | a room below the ceiling gets no worker if and only if every listed one was over its quota or limit or held the room |
| SchedulerCheck.TurnGainsExactly | src/supervisor/worker_scheduler.cpp:345-359 | a room gains if and only if it is below the ceiling and a listed worker can take it, and then from the first that can |
| SchedulerCheck.TurnTrimsExactly | src/supervisor/worker_scheduler.cpp:361-377 | how many tasks a room that gained nothing ends with |
| SchedulerCheck.OfferedInOrder | src/supervisor/worker_scheduler.cpp:338-359 | the list is never reordered: every turn sees the first one's with some workers left out |
| SchedulerCheck.CeilingExactly | src/supervisor/worker_scheduler.cpp:304-305 | the ceiling is the largest of one, the number of workers, and the quotient plus one |
| SchedulerCheck.LimitsAddUp | src/supervisor/worker_scheduler.cpp:197-199 | the sum under the ceiling is that of all limits |
| SchedulerCheck.TruncDivExactly | src/supervisor/worker_scheduler.cpp:200 | what the division yields, for negative sums too |
| SchedulerCheck.RebalancingKeepsRoomsServed | src/supervisor/worker_scheduler.cpp:361-377 | no room both gains and loses; one that loses keeps the smaller of ceiling and minimum plus one, exactly that many if the ten disconnects suffice |
| SchedulerCheck.Sort | src/supervisor/worker_scheduler.cpp:301 | the same items in order of the key |
| SchedulerTrail.CutsOfTurns | src/supervisor/worker_scheduler.cpp:361-377 | the turns of a check send exactly as many unpenalised unassigns as tasks they cut |
| SchedulerTrail.ActiveRoomsStay | src/supervisor/worker_scheduler.cpp:59-82 | nothing but a room list changes which rooms are active |
| SchedulerTrail.UncheckedAreSpaced | src/supervisor/worker_scheduler.cpp:490-501 | in every run at one pace, two payloads of one room without checksum that are passed on are at least the interval apart, unless the room was deleted in between |
| SchedulerOutcome.ServedRoomsStayServed | src/supervisor/worker_scheduler.cpp:338-380 | a check never empties a room that has a surviving task, and no room gains more than one or above the ceiling |
| SchedulerOutcome.CutsOnlyUnevenRooms | src/supervisor/worker_scheduler.cpp:362-363 | no room is ever above the ceiling, so only unevenness is cut |
| SchedulerOutcome.StepsOfCheck | src/supervisor/worker_scheduler.cpp:261-383 | what each step of a check can be, by its phase; nothing else is sent or changed |
| SchedulerOutcome.LostTasksWereTold | src/supervisor/worker_scheduler.cpp:215-240 | every task lost in a check had its unassign sent, or its worker was silent and is deleted |
| SchedulerOutcome.PurgedTasksWereTold | src/supervisor/worker_scheduler.cpp:325-332 | every task of an inactive room is gone after a check, with a penalised unassign sent if its worker is still there |
| SchedulerOutcome.CutsAreFew | src/supervisor/worker_scheduler.cpp:314-377 | a check sends at most ten unpenalised unassigns, exactly those its turns report |
| SchedulerOutcome.UnservedRoomsHadNobody | src/supervisor/worker_scheduler.cpp:345-359 | a room whose turn began below the ceiling gained nothing only because every worker the check had listed held it, or was over its quota or limit at that turn or, erased, at an earlier one |
| SchedulerOutcome.DataIsPaced | src/supervisor/worker_scheduler.cpp:480-512 | a data message marks its room and passes a payload without checksum on only when the interval since the last mark is over |
| SchedulerOutcome.RoomListTakesEffect | src/supervisor/worker_scheduler.cpp:59-332 | after a list, any events but another list, and a check: rooms and tasks are within the list, workers still there were told of every task taken for it, and the rooms are the list if and only if no listed room was waiting to be purged when it came |
| SchedulerDecisions.SurvivorsExactly | src/supervisor/worker_scheduler.cpp:215-332 | which workers, rooms and tasks are left after a check, and its ceiling |
| SchedulerDecisions.SilentWorkersAreDeleted | src/supervisor/worker_scheduler.cpp:220-225 | exactly the silent workers are reset, deleted and disconnected in a check |
| SchedulerDecisions.PenaltiesAsConfigured | src/supervisor/worker_scheduler.cpp:155-157 | every penalty of a check is of the configured minutes |
| SchedulerDecisions.ListedExactly | src/supervisor/worker_scheduler.cpp:286-294 | a worker is listed if and only if it was heard from, holds fewer surviving tasks than its limit, and its last penalty or reset is over |
| SchedulerDecisions.ListedInOrder | src/supervisor/worker_scheduler.cpp:301 | the list begins with the workers that have most room left |
| SchedulerDecisions.TurnsInOrder | src/supervisor/worker_scheduler.cpp:311-333 | rooms take their turns with the fewest surviving tasks first, and the minimum is the first one's |
| SchedulerDecisions.UnevenRoomsAreCut | src/supervisor/worker_scheduler.cpp:361-377 | a room that gained nothing is cut down to the ceiling and to one above the least, as far as ten cuts in all allow, unless its search ended with an erased worker |
| SchedulerDecisions.FirstWorkerGains | src/supervisor/worker_scheduler.cpp:338-359 | a worker that gains a room was sent it, and every worker before it on the list held the room or was exhausted by then |
| SchedulerDecisions.QuotaKept | src/supervisor/worker_scheduler.cpp:293 | no worker gains more than the configured number of tasks in one check |
| SchedulerMessages.DataIsForwardedExactly | src/supervisor/worker_scheduler.cpp:473-513 | from its bytes: data of a held task is passed on, as sent, if and only if it has a checksum or the interval is over; all steps it leads to |
| SchedulerMessages.RightCodeMakesReady | src/supervisor/worker_scheduler.cpp:449-466 | from its bytes: the right code makes the worker ready with the announced limit, and a check is asked for |
| SchedulerMessages.WrongCodeDeletes | src/supervisor/worker_scheduler.cpp:451-457 | from its bytes: a wrong code resets, deletes and disconnects the worker and does nothing else |
| SchedulerMessages.FailureEndsTask | src/supervisor/worker_scheduler.cpp:467-472 | from its bytes: a reported failure ends the task with the configured penalty, and a check is asked for |
| SchedulerMessages.MalformedMessages | src/supervisor/worker_scheduler.cpp:423-480 | which messages are only heard, and which delete the worker |
| Scheduler.SchedulerSession.UpdateRoomLists | src/supervisor/worker_scheduler.cpp:59-82 | listed rooms are present, others inactive, and exactly when the list takes effect |
| Scheduler.SchedulerSession.ResetWorker | src/supervisor/worker_scheduler.cpp:111-120 | the worker's tasks are gone and its fields are those of a new, idle worker |
| Scheduler.SchedulerSession.DeleteWorker | src/supervisor/worker_scheduler.cpp:122-127 | the worker and its tasks are gone |
| Scheduler.SchedulerSession.DeleteTask | src/supervisor/worker_scheduler.cpp:137-177 | one entry and one count each of worker and room are removed, with a penalty when asked for |
| Scheduler.SchedulerSession.AssignTask | src/supervisor/worker_scheduler.cpp:179-190 | a present pair is refused, an absent one is added, counted, sent and paid from the quota |
| Scheduler.SchedulerSession.RefreshCounts | src/supervisor/worker_scheduler.cpp:203-213 | all counters are recounted from the table |
| Scheduler.SchedulerSession.CheckWorkerTaskInterval | src/supervisor/worker_scheduler.cpp:215-240 | exactly the silent workers with their tasks, each reset, deleted and disconnected once, and then exactly the silent tasks are gone, each with the configured penalty; a worker without a silent task is not penalised |
| Scheduler.SchedulerSession.CollectAvailable | src/supervisor/worker_scheduler.cpp:286-294 | exactly the workers below their limit and past their penalty are listed and given the quota, one after the other |
| Scheduler.SchedulerSession.CalculateMaxWorkersPerRoom | src/supervisor/worker_scheduler.cpp:192-201 | the loop sums all limits and divides towards zero, plus one |
| Scheduler.SchedulerSession.PurgeInactiveRooms | src/supervisor/worker_scheduler.cpp:311-332 | exactly the inactive rooms and their tasks are gone, each task unassigned with the configured penalty and nothing else sent; the rest is listed with its least count |
| Scheduler.SchedulerSession.AssignRoom | src/supervisor/worker_scheduler.cpp:345-359 | the loop with erasure inside is the first-fit search and leaves the scanned list |
| Scheduler.SchedulerSession.TrimRoom | src/supervisor/worker_scheduler.cpp:361-377 | the surplus is unassigned without penalty as far as disconnects allow, one message each, and no other room is touched |
| Scheduler.SchedulerSession.TakeTurns | src/supervisor/worker_scheduler.cpp:337-380 | every room takes one turn as decided, sending one assignment or its cuts, and gains are paid from quotas |
| Scheduler.SchedulerSession.CheckAllStates | src/supervisor/worker_scheduler.cpp:261-383 | nothing happens before the interval is over; otherwise the whole log of the check, phase by phase, and its whole effect on the three tables: who and what is left, whom the list offers in which order, and what each room's turn decides |
| Scheduler.SchedulerSession.HandleNewWorker | src/supervisor/worker_scheduler.cpp:392-416 | a known worker is reset, an unknown one added |
| Scheduler.SchedulerSession.HandleBuffer | src/supervisor/worker_scheduler.cpp:419-514 | the steps each kind of message leads to, malformed and unknown ones included, and whether a check with its whole effect follows |
| Scheduler.SchedulerSession.HandleReady | src/supervisor/worker_scheduler.cpp:449-466 | a wrong code deletes the worker and nothing else happens; the right one makes it start afresh with its limit, and a check is asked for |
| Scheduler.SchedulerSession.HandleFailed | src/supervisor/worker_scheduler.cpp:467-472 | a task the worker has is removed with a penalty and no message, any other is ignored, and a check is asked for either way |
| Scheduler.SchedulerSession.HandleData | src/supervisor/worker_scheduler.cpp:473-513 | data of a pair not in the table is dropped, unchecked data of a room is throttled, all else is forwarded |
| Scheduler.SchedulerSession.HandleWorkerDisconnect | src/supervisor/worker_scheduler.cpp:516-523 | the worker and its tasks are gone |
| Scheduler.SchedulerSession.ServeOne | src/supervisor/worker_scheduler.cpp:40-97 | each event leads to the steps of its handler and to nothing else; only a room list changes which rooms are listed, and payloads without checksum keep the pace |
| Scheduler.SchedulerSession.Serve | src/supervisor/worker_scheduler.cpp:40-97 | any sequence of events is served one after the other, configuration changes included, and keeps the invariant |
| Scheduler.SchedulerSession.ServeRoomList | src/supervisor/worker_scheduler.cpp:40-82 | a room list is in force after any further events and a check that ran |
| EndToEnd.ArrivedFrames | src/shared/simple_worker_proto.cpp:8-71 | any chunking of part of a stream of fitting packets gives a prefix of the packets |
| EndToEnd.FramesDelivered | src/shared/asio_socket_write_helper.cpp:17-113 | for any packets, batching and chunking the frames read are a prefix of the packets submitted, and all of them once all is written and read |
| EndToEnd.CallsDelivered | src/shared/asio_socket_write_helper.cpp:17-113 | for any calls, batching and chunking the worker performs a prefix of the calls, and all of them once all is written and read |
| EndToEnd.WorkerMessagesDelivered | src/worker/simple_worker_proto_generator.cpp:10-57 | for any messages that fit, any batching and any chunking the supervisor reads what the worker meant, in order, and all of it once all is written and read |
| EndToEnd.WorkerMirrorsTable | src/worker/supervisor_session.cpp:53-82 | once all is delivered the worker has open exactly the rooms the scheduler's table lists for it |
| EndToEnd.StaleBytesMisdirectCall | src/shared/simple_worker_proto_handler.cpp:31-39 | bytes kept over a reconnect make a worker open another room |
| EndToEnd.ReadAndPerform | src/worker/supervisor_connection.cpp:14 | each frame the read handler completes is performed, in order |

## Left out

- Sockets, resolvers, timers, TLS, WebSocket, HTTP and threads: only the events they deliver are steps here, on one executor. `worker_session::disconnect` and the connection manager's socket table are not part of this model.
- JSON parsing, Protobuf serialisation and zlib: uninterpreted functions. The configuration parsers, the command grammar, the AMQP client, the profiler, the loggers and the diagnostics message are not part of this model.
- Machine-word overflow of counters and of the ceiling, and invalidated pointers into the hash maps: integers are unbounded there and loops go over keys, in any order.
- A packet length below 16 with a valid header length: the source loops forever on zero and computes a wrapped payload size otherwise, so `WellDefined` asks that a stream reach none.
- BiliPacket.DeliverPacket: nesting of compressed packets is bounded by `fuel`, at which a packet is dropped; in the source all levels share one scratch buffer, so decompressing inside decompressed content reads and writes the same bytes.
- BiliPacket.HandlePacket: the model allocates the scratch buffer one byte longer than the content. The source's has exactly 262144 bytes, so if the content fills all of them and its last packet is a JSON message that ends with it, the NUL of src/worker/bili_packet.cpp:176 is written one byte behind the allocation; with any shorter content, or another packet at the end, it stays inside.
- BiliPacket.PlainTcpConnection.OnReceive: after a failed read the source starts another on the socket it has just released, which is undefined; the model ends there.
- SimpleProto.ProtoHandler.OnReceive: two reads can only be outstanding after a reset; one that brings bytes after the other has moved the offset would overwrite carried bytes and is not modelled.
- Scheduler.SchedulerSession.HandleReady: after a failed authentication the source touches the deleted worker again; the model returns, as intended.
- SchedulerRuns.PenaltyBlocksAssignment: assumes that clock readings of penalties never decrease and that the configured penalty is fixed, as the source implicitly does.
- SchedulerTrail.UncheckedAreSpaced: the configured interval is taken not to be negative; a negative one holds nothing back.
- SchedulerRuns.SentCallsMatchTasks: a worker that reports a failure has closed the room itself, at a moment the supervisor's log does not order, so failures are excluded.
- Nothing in the source drives the de-duplication window's expiry, because the stored tick handler is never called: `Dedup` treats adds and expiries as operations in any order.
