/** The control path as a whole: assign and unassign calls are encoded, queued, written in
    batches, cut up by the network, reassembled, decoded and performed by the worker. */
module EndToEnd {
  import opened Bytes
  import opened Framing
  import opened Wire
  import SimpleProto
  import WriteQueue
  import SchedulerModel
  import SchedulerRuns

  /** The calls a sequence of reassembled frames leads to. */
  function CallsOfFrames(frames: seq<seq<byte>>): seq<Call> {
    if frames == [] then []
    else
      (if |frames[0]| < SIMPLE_HEADER then [] else CallsOf(frames[0][SIMPLE_HEADER..])) + CallsOfFrames(frames[1..])
  }

  function PacketsFor(calls: seq<Call>): seq<seq<byte>> {
    if calls == [] then [] else [Framed(CallPayload(calls[0]))] + PacketsFor(calls[1..])
  }

  const CALL_PACKET_LENGTH: nat := 9

  /** Buffer i holds packet i. */
  predicate Carries(buffers: seq<WriteQueue.Buffer>, packets: seq<seq<byte>>) {
    WriteQueue.Contents(buffers) == packets
  }

  lemma {:induction false} PacketsAreFrames(calls: seq<Call>)
    ensures |PacketsFor(calls)| == |calls|
    ensures forall p :: p in PacketsFor(calls) ==> IsPacket(Simple, p) && |p| == CALL_PACKET_LENGTH
    ensures CallsOfFrames(PacketsFor(calls)) == calls
  {
    if calls != [] {
      PacketsAreFrames(calls[1..]);
      FramedIsPacket(CallPayload(calls[0]));
      CallRoundTrip(calls[0]);
      var p := Framed(CallPayload(calls[0]));
      assert PacketsFor(calls)[1..] == PacketsFor(calls[1..]);
      assert [calls[0]] + calls[1..] == calls;
    }
  }

  lemma {:induction false} CallsOfPrefix(frames: seq<seq<byte>>, more: seq<seq<byte>>)
    ensures CallsOfFrames(frames + more) == CallsOfFrames(frames) + CallsOfFrames(more)
  {
    if frames == [] {
      assert frames + more == more;
    } else {
      assert (frames + more)[1..] == frames[1..] + more;
      CallsOfPrefix(frames[1..], more);
    }
  }

  lemma {:induction false} PacketsFit(limit: nat, packets: seq<seq<byte>>)
    requires forall p :: p in packets ==> IsPacket(Simple, p) && |p| <= limit
    ensures !SimpleProto.MeetsOversize(limit, Flatten(packets))
  {
    if packets != [] {
      var p, rest := packets[0], packets[1..];
      assert p in packets;
      assert Flatten(packets)[..4] == p[..4] && Flatten(packets)[|p|..] == Flatten(rest);
      PacketsFit(limit, rest);
    }
  }

  /** Reassembling part of the bytes of packets that fit the buffer gives part of the
      packets. */
  lemma ArrivedFrames(packets: seq<seq<byte>>, limit: nat, chunks: seq<seq<byte>>)
    requires forall p :: p in packets ==> IsPacket(Simple, p) && |p| <= limit
    requires SimpleProto.Windowed(limit, Partial([]), chunks) && Flatten(chunks) <= Flatten(packets)
    ensures var frames := SimpleProto.ReadAll(limit, Partial([]), chunks).frames;
            frames <= packets && (Flatten(chunks) == Flatten(packets) ==> frames == packets)
  {
    hide Decode, HeadOf, SimpleProto.ReadAll, SimpleProto.Windowed, SimpleProto.MeetsOversize;
    var arrived, all := Flatten(chunks), Flatten(packets);
    assert all == arrived + all[|arrived|..];
    PacketsFit(limit, packets);
    if SimpleProto.MeetsOversize(limit, arrived) {
      SimpleProto.OversizeExtends(limit, arrived, all[|arrived|..]);
    }
    SimpleProto.FittingStreamExact(limit, chunks);
    DecodeOfPackets(Simple, limit, packets);
    FittingAll(limit, packets);
    PrefixDelivers(Simple, limit, arrived, all);
  }

  /** For any packets that fit the reader's buffer, any batching of the writes and any
      chunking by the network: the frames read are a prefix of the packets submitted, and
      all of them once everything has been written and read. */
  lemma FramesDelivered(steps: seq<WriteQueue.Step>, packets: seq<seq<byte>>, limit: nat, chunks: seq<seq<byte>>)
    requires forall s :: s in steps ==> WriteQueue.Undisturbed(s)
    requires forall p :: p in packets ==> IsPacket(Simple, p) && |p| <= limit
    requires var sent := WriteQueue.Run(WriteQueue.Initial(true), steps);
             Carries(sent.accepted, packets) && Flatten(chunks) <= sent.wire
    requires SimpleProto.Windowed(limit, Partial([]), chunks)
    ensures var sent := WriteQueue.Run(WriteQueue.Initial(true), steps);
            var frames := SimpleProto.ReadAll(limit, Partial([]), chunks).frames;
            && Flatten(chunks) <= Flatten(packets) && frames <= packets
            && (sent.posted == [] && sent.flights == [] && Flatten(chunks) == sent.wire ==>
                  Flatten(chunks) == Flatten(packets) && frames == packets)
  {
    hide SimpleProto.ReadAll, SimpleProto.Windowed, Flatten, WriteQueue.Run, IsPacket;
    WriteQueue.LiveRunDelivers(steps);
    ArrivedFrames(packets, limit, chunks);
  }

  /** Reassembling part of the packets' bytes gives part of the calls. */
  lemma ArrivedCalls(calls: seq<Call>, limit: nat, chunks: seq<seq<byte>>)
    requires CALL_PACKET_LENGTH <= limit && SimpleProto.Windowed(limit, Partial([]), chunks)
    requires Flatten(chunks) <= Flatten(PacketsFor(calls))
    ensures var performed := CallsOfFrames(SimpleProto.ReadAll(limit, Partial([]), chunks).frames);
            performed <= calls && (Flatten(chunks) == Flatten(PacketsFor(calls)) ==> performed == calls)
  {
    hide CallsOf, CallPayload, Framed, SimpleProto.ReadAll, SimpleProto.Windowed;
    var packets := PacketsFor(calls);
    PacketsAreFrames(calls);
    ArrivedFrames(packets, limit, chunks);
    var got := SimpleProto.ReadAll(limit, Partial([]), chunks).frames;
    assert packets == got + packets[|got|..];
    CallsOfPrefix(got, packets[|got|..]);
  }

  // ----- the other direction -----

  /** What workers say. */
  datatype WorkerMessage =
    | SayReady(maxRooms: int32, auth: seq<byte>)
    | SayFailed(room: int32)
    | SayData(room: int32, msg: BorrowedMessage)
  {
    predicate Valid() {
      (SayReady? ==> |auth| <= AUTH_CODE_SIZE) && (SayData? ==> msg.Valid())
    }

    function Sent(): (payload: seq<byte>)
      requires Valid()
      ensures |payload| < 0x8000_0000
    {
      match this
      case SayReady(m, auth) => ReadyPayload(m, auth)
      case SayFailed(room) => BasicPayload(ROOM_FAILED_CODE, room)
      case SayData(room, msg) => DataPayload(room, msg)
    }

    /** What the supervisor should read. */
    function Meant(): Incoming
      requires Valid()
    {
      match this
      case SayReady(m, auth) => Ready(m, Padded(auth))
      case SayFailed(room) => Failed(room)
      case SayData(room, msg) => Data(room, Unconverted(msg.crc32), Text(msg.routingKey), msg.body)
    }
  }

  function MessagePackets(messages: seq<WorkerMessage>): (packets: seq<seq<byte>>)
    requires forall m :: m in messages ==> m.Valid()
    ensures |packets| == |messages|
  {
    seq(|messages|, j requires 0 <= j < |messages| => Framed(messages[j].Sent()))
  }

  /** For any messages that fit the supervisor's buffer, any batching of the writes and any
      chunking, the supervisor reads what the worker meant, in order: op code, room or
      limit, code or routing key, and body as sent, the checksum reversed.  All messages
      are read once everything has been written and read. */
  lemma WorkerMessagesDelivered(steps: seq<WriteQueue.Step>, messages: seq<WorkerMessage>, limit: nat,
                                chunks: seq<seq<byte>>)
    requires forall m :: m in messages ==> m.Valid() && |Framed(m.Sent())| <= limit
    requires forall s :: s in steps ==> WriteQueue.Undisturbed(s)
    requires var sent := WriteQueue.Run(WriteQueue.Initial(true), steps);
             Carries(sent.accepted, MessagePackets(messages)) && Flatten(chunks) <= sent.wire
    requires SimpleProto.Windowed(limit, Partial([]), chunks)
    ensures var sent := WriteQueue.Run(WriteQueue.Initial(true), steps);
            var frames := SimpleProto.ReadAll(limit, Partial([]), chunks).frames;
            && |frames| <= |messages|
            && (forall i :: 0 <= i < |frames| ==>
                  |frames[i]| >= SIMPLE_HEADER && ReadPayload(frames[i][SIMPLE_HEADER..]) == messages[i].Meant())
            && (sent.posted == [] && sent.flights == [] && Flatten(chunks) == sent.wire ==> |frames| == |messages|)
  {
    hide ReadPayload, Framed, SimpleProto.ReadAll, SimpleProto.Windowed, WriteQueue.Run, Carries, Flatten, IsPacket;
    hide MessagePackets;
    MessagePacketsFit(messages, limit);
    FramesDelivered(steps, MessagePackets(messages), limit, chunks);
    MessagesRead(messages, SimpleProto.ReadAll(limit, Partial([]), chunks).frames);
  }

  lemma MessagePacketsFit(messages: seq<WorkerMessage>, limit: nat)
    requires forall m :: m in messages ==> m.Valid() && |Framed(m.Sent())| <= limit
    ensures forall p :: p in MessagePackets(messages) ==> IsPacket(Simple, p) && |p| <= limit
  {
    hide Framed, IsPacket;
    var packets := MessagePackets(messages);
    forall p | p in packets ensures IsPacket(Simple, p) && |p| <= limit {
      var j :| 0 <= j < |packets| && packets[j] == p;
      assert messages[j] in messages;
      FramedIsPacket(messages[j].Sent());
    }
  }

  lemma MessagesRead(messages: seq<WorkerMessage>, frames: seq<seq<byte>>)
    requires (forall m :: m in messages ==> m.Valid()) && frames <= MessagePackets(messages)
    ensures forall i :: 0 <= i < |frames| ==>
      |frames[i]| >= SIMPLE_HEADER && ReadPayload(frames[i][SIMPLE_HEADER..]) == messages[i].Meant()
  {
    hide ReadPayload, Framed;
    forall i | 0 <= i < |frames|
      ensures |frames[i]| >= SIMPLE_HEADER && ReadPayload(frames[i][SIMPLE_HEADER..]) == messages[i].Meant()
    {
      assert frames[i] == MessagePackets(messages)[i] && messages[i] in messages;
      FramedIsPacket(messages[i].Sent());
      MessageRead(messages[i]);
    }
  }

  lemma MessageRead(m: WorkerMessage)
    requires m.Valid()
    ensures ReadPayload(m.Sent()) == m.Meant()
  {
    match m
    case SayReady(max, auth) => ReadyRoundTrip(max, auth);
    case SayFailed(room) => FailedRoundTrip(room);
    case SayData(room, msg) => DataRoundTrip(room, msg);
  }

  // ----- supervisor to worker -----

  /** For any calls, any batching of the writes and any chunking by the network, the worker
      performs the calls in order, with the same room ids: so far a prefix of them, and all
      of them once everything submitted has arrived. */
  lemma CallsDelivered(steps: seq<WriteQueue.Step>, calls: seq<Call>, limit: nat, chunks: seq<seq<byte>>)
    requires forall s :: s in steps ==> WriteQueue.Undisturbed(s)
    requires var sent := WriteQueue.Run(WriteQueue.Initial(true), steps);
             Carries(sent.accepted, PacketsFor(calls)) && Flatten(chunks) <= sent.wire
    requires CALL_PACKET_LENGTH <= limit && SimpleProto.Windowed(limit, Partial([]), chunks)
    ensures var sent := WriteQueue.Run(WriteQueue.Initial(true), steps);
            var performed := CallsOfFrames(SimpleProto.ReadAll(limit, Partial([]), chunks).frames);
            && performed <= calls
            && (sent.posted == [] && sent.flights == [] && Flatten(chunks) == sent.wire ==> performed == calls)
  {
    hide SimpleProto.ReadAll, SimpleProto.Windowed, CallsOfFrames, Flatten, PacketsFor, WriteQueue.Run;
    PacketsAreFrames(calls);
    FramesDelivered(steps, PacketsFor(calls), limit, chunks);
    ArrivedCalls(calls, limit, chunks);
  }

  /** The calls the steps [i, j) of the scheduler's log send to worker w. */
  function CallsTo(log: seq<SchedulerModel.Step>, i: nat, j: nat, w: SchedulerModel.WorkerId): seq<Call>
    requires i <= j <= |log|
    decreases j - i
  {
    if i == j then []
    else
      var before := CallsTo(log, i, j - 1, w);
      match log[j - 1]
      case Assign(k) => if k.worker == w then before + [Open(k.room)] else before
      case Unassign(k, _) => if k.worker == w then before + [Close(k.room)] else before
      case _ => before
  }

  /** The rooms a worker has open after performing some calls. */
  function RoomsAfter(calls: seq<Call>): set<int32>
    decreases |calls|
  {
    if calls == [] then {}
    else
      var before := RoomsAfter(calls[..|calls| - 1]);
      match calls[|calls| - 1]
      case Open(r) => before + {r}
      case Close(r) => before - {r}
  }

  lemma RoomsAfterLast(calls: seq<Call>, c: Call)
    ensures RoomsAfter(calls + [c])
         == if c.Open? then RoomsAfter(calls) + {c.room} else RoomsAfter(calls) - {c.room}
  {
    assert (calls + [c])[..|calls|] == calls;
  }

  lemma {:induction false} CallsOpenRooms(log: seq<SchedulerModel.Step>, i: nat, j: nat, w: SchedulerModel.WorkerId)
    requires i <= j <= |log|
    ensures RoomsAfter(CallsTo(log, i, j, w)) == SchedulerRuns.OpenRooms(log, i, j, w)
    decreases j
  {
    if i < j {
      CallsOpenRooms(log, i, j - 1, w);
      var before, step := CallsTo(log, i, j - 1, w), log[j - 1];
      if step.Assign? && step.key.worker == w {
        RoomsAfterLast(before, Open(step.key.room));
      } else if step.Unassign? && step.key.worker == w {
        RoomsAfterLast(before, Close(step.key.room));
      }
    }
  }

  /** From the scheduler's table to the worker's rooms: once everything sent to a worker
      since a moment at which it had no task has been written and read, however it was
      batched and cut up, the worker has open exactly the rooms the table lists for it. */
  lemma WorkerMirrorsTable(log: seq<SchedulerModel.Step>, i: nat, j: nat, w: SchedulerModel.WorkerId,
                           steps: seq<WriteQueue.Step>, limit: nat, chunks: seq<seq<byte>>)
    requires SchedulerModel.Replay(log).Legal? && i <= j <= |log|
    requires SchedulerModel.OfWorker(SchedulerRuns.At(log, i).tasks.Keys, w) == {}
    requires forall m :: i <= m < j ==>
      !(log[m].Fail? && log[m].key.worker == w) && !(SchedulerModel.DropsSilently(log[m]) && log[m].worker == w)
    requires forall s :: s in steps ==> WriteQueue.Undisturbed(s)
    requires var sent := WriteQueue.Run(WriteQueue.Initial(true), steps);
             && Carries(sent.accepted, PacketsFor(CallsTo(log, i, j, w)))
             && sent.posted == [] && sent.flights == [] && Flatten(chunks) == sent.wire
    requires CALL_PACKET_LENGTH <= limit && SimpleProto.Windowed(limit, Partial([]), chunks)
    ensures RoomsAfter(CallsOfFrames(SimpleProto.ReadAll(limit, Partial([]), chunks).frames))
         == SchedulerRuns.RoomsOf(SchedulerRuns.At(log, j), w)
  {
    hide SimpleProto.ReadAll, SimpleProto.Windowed, CallsOfFrames, Flatten, WriteQueue.Run, RoomsAfter, CallsTo;
    hide SchedulerModel.Replay, SchedulerModel.OfWorker, SchedulerRuns.OpenRooms, SchedulerRuns.RoomsOf;
    hide Carries, PacketsFor;
    CallsDelivered(steps, CallsTo(log, i, j, w), limit, chunks);
    CallsOpenRooms(log, i, j, w);
    SchedulerRuns.SentCallsMatchTasks(log, i, j, w);
  }

  const STALE: seq<byte> := [0, 0, 0, 5, 1]
  const OPEN_FIVE: seq<byte> := [0, 0, 0, 5, 1, 0, 0, 0, 5]
  const OPEN_SEVEN: seq<byte> := [0, 0, 0, 5, 1, 0, 0, 0, 7]

  lemma MixedFrame()
    ensures SimpleProto.Read(16, Partial(STALE), OPEN_SEVEN).frames == [OPEN_FIVE]
  {
    var rest: seq<byte> := [1, 0, 0, 0, 7];
    var w := STALE + OPEN_SEVEN;
    assert w[..4] == [0, 0, 0, 5] && w[..9] == OPEN_FIVE && w[9..] == rest && rest[..4] == [1, 0, 0, 0];
    assert SimpleProto.Parse(16, rest).frames == [];
  }

  lemma CallBytes()
    ensures Framed(CallPayload(Open(7))) == OPEN_SEVEN
    ensures OPEN_FIVE[4..] == CallPayload(Open(5))
  {
    hide NetworkBytes;
    SmallNetworkBytes(5);
    SmallNetworkBytes(7);
  }

  /** A reconnect that keeps half a frame of the old connection: the worker opens room 5
      when it was told to open room 7. */
  lemma StaleBytesMisdirectCall()
    ensures Framed(CallPayload(Open(7))) == OPEN_SEVEN
    ensures CallsOfFrames(SimpleProto.ReadAll(16, Partial(STALE), [OPEN_SEVEN]).frames) == [Open(5)]
  {
    hide SimpleProto.Parse, SimpleProto.Read, CallsOf, CallPayload, Framed;
    MixedFrame();
    CallBytes();
    var none: seq<seq<byte>> := [];
    SimpleProto.OneMoreRead(16, Partial(STALE), none, OPEN_SEVEN);
    assert none + [OPEN_SEVEN] == [OPEN_SEVEN] && none + [OPEN_FIVE] == [OPEN_FIVE];
    CallRoundTrip(Open(5));
    assert CallsOfFrames([OPEN_FIVE]) == CallsOf(OPEN_FIVE[4..]) + CallsOfFrames([]);
  }

  lemma OneMoreFrame(frames: seq<seq<byte>>, i: nat)
    requires i < |frames|
    ensures CallsOfFrames(frames[..i + 1])
         == CallsOfFrames(frames[..i])
            + (if |frames[i]| < SIMPLE_HEADER then [] else CallsOf(frames[i][SIMPLE_HEADER..]))
  {
    assert frames[..i + 1] == frames[..i] + [frames[i]];
    CallsOfPrefix(frames[..i], [frames[i]]);
    assert CallsOfFrames([frames[i]][1..]) == [];
  }

  /** The worker's read callback: every frame the handler completes goes to the session. */
  method ReadAndPerform(handler: SimpleProto.ProtoHandler, session: SupervisorSession, ghost read: nat,
                        chunk: seq<byte>)
    requires handler.Valid()
    requires SimpleProto.CanComplete(handler.State(), SimpleProto.Completion(read, SimpleProto.Arrived(chunk)))
    requires session.calls == CallsOfFrames(handler.received)
    modifies handler, handler.readBuffer, session
    ensures handler.Valid() && handler.chunks == old(handler.chunks) + [chunk]
    ensures handler.start == old(handler.start) && handler.before == old(handler.before)
    ensures session.calls == CallsOfFrames(handler.received)
  {
    hide CallsOf, CallsOfFrames, SimpleProto.ProtoHandler.Valid, SimpleProto.Complete;
    var seen := |handler.received|;
    handler.OnReceive(read, SimpleProto.Arrived(chunk));
    var frames := handler.received;
    assert frames[..seen] == old(handler.received);
    for i := seen to |frames|
      invariant handler.received == frames
      invariant handler.Valid() && handler.chunks == old(handler.chunks) + [chunk]
      invariant handler.start == old(handler.start) && handler.before == old(handler.before)
      invariant session.calls == CallsOfFrames(frames[..i])
    {
      var frame := frames[i];
      OneMoreFrame(frames, i);
      if SIMPLE_HEADER <= |frame| {
        session.OnSupervisorMessage(frame[SIMPLE_HEADER..]);
      }
    }
    assert frames[..|frames|] == frames;
  }
}
