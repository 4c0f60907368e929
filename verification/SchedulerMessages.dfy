/** What the messages of a worker lead to, from the bytes they arrive as: steps of the log,
    and what the tables say afterwards.  Times are in milliseconds. */
module SchedulerMessages {
  import opened Bytes
  import opened SchedulerModel
  import opened SchedulerTables
  import opened SchedulerTrail
  import opened SchedulerOutcome
  import SchedulerHistory
  import SchedulerRuns
  import Wire

  /** A payload of worker w arrived when the log was `before` and the tables were s, and was
      handled. */
  ghost predicate Arrived(before: seq<Step>, s: State, log: seq<Step>, t: State, authCode: seq<byte>, config: Config,
                          w: WorkerId, now: Time, payload: seq<byte>, trace: Trace)
  {
    && Replay(before) == Legal(s) && w in s.workers && Replay(log) == Legal(t) && |payload| >= 5
    && MessageHandled(before + [Hear(w, now)], log, t, authCode, config, w, now, Wire.ReadPayload(payload), trace)
  }

  lemma StateWhenHeard(before: seq<Step>, s: State, w: WorkerId, now: Time)
    requires Replay(before) == Legal(s) && w in s.workers
    ensures var heard := Replay(before + [Hear(w, now)]);
            && heard.Legal? && heard.state.tasks == s.tasks && heard.state.rooms == s.rooms
            && heard.state.lastChecked == s.lastChecked
  {
    hide Replay;
    ReplayNext(before, Hear(w, now));
  }

  // ----- data -----

  /** The message as it is passed on. */
  function Passed(room: RoomId, msg: Wire.BorrowedMessage): Wire.Incoming {
    Wire.Data(room, Unconverted(msg.crc32), Wire.Text(msg.routingKey), msg.body)
  }

  /** Data of a task the worker has marks the task as alive, and is passed on exactly if it
      has a checksum or the last payload of its room without one is long enough ago.  Data of
      any other room is dropped. */
  lemma DataIsForwardedExactly(before: seq<Step>, s: State, log: seq<Step>, t: State, authCode: seq<byte>,
                               config: Config, w: WorkerId, now: Time, trace: Trace,
                               room: RoomId, msg: Wire.BorrowedMessage)
    requires msg.Valid()
    requires Arrived(before, s, log, t, authCode, config, w, now, Wire.DataPayload(room, msg), trace)
    ensures var k, heard := Key(w, room), before + [Hear(w, now)];
            var interval := config.minIntervalPopularitySec * 1000;
            var due := msg.crc32 != 0 || (room in s.rooms && now - s.rooms[room].lastEmptyCrc >= interval);
            log == if k !in s.tasks then heard
                   else heard + [Touch(k, now)]
                        + (if due && msg.crc32 == 0 then [MarkEmpty(room, now)] else [])
                        + (if due then [Forward(k, Passed(room, msg))] else [])
  {
    hide Replay, Wire.ReadPayload, Wire.DataPayload, Wire.Text, Unconverted;
    Wire.DataRoundTrip(room, msg);
    UnconvertedZero(msg.crc32);
    StateWhenHeard(before, s, w, now);
  }

  // ----- ready -----

  /** A worker with the wrong code is reset, deleted and disconnected. */
  lemma WrongCodeDeletes(before: seq<Step>, s: State, log: seq<Step>, t: State, authCode: seq<byte>, config: Config,
                         w: WorkerId, now: Time, trace: Trace, maxRooms: int32, own: seq<byte>, sent: seq<byte>)
    requires |own| <= 32 && |sent| <= 32 && 0 !in own && 0 !in sent && authCode == Wire.Padded(own) && own != sent
    requires Arrived(before, s, log, t, authCode, config, w, now, Wire.ReadyPayload(maxRooms, sent), trace)
    ensures log == before + [Hear(w, now), Reset(w, trace.at), Erase(w), Disconnect(w)]
    ensures w !in t.workers
  {
    hide Wire.ReadPayload, Wire.ReadyPayload, Wire.SamePrefix, Wire.Padded;
    Wire.ReadyRoundTrip(maxRooms, sent);
    Wire.AuthenticationExact(own, sent);
    var start := before + [Hear(w, now)] + [Reset(w, trace.at)];
    assert log == start + [Erase(w)] + [Disconnect(w)];
    hide Replay, MessageHandled;
    ReplayNext(start + [Erase(w)], Disconnect(w));
    ReplayNext(start, Erase(w));
  }

  /** A worker with the right code is reset and ready with the limit it announced, and a check
      is asked for; it keeps that limit through the check unless the check deletes it. */
  lemma RightCodeMakesReady(before: seq<Step>, s: State, log: seq<Step>, t: State, authCode: seq<byte>, config: Config,
                            w: WorkerId, now: Time, trace: Trace, maxRooms: int32, own: seq<byte>)
    requires |own| <= 32 && 0 !in own && authCode == Wire.Padded(own)
    requires Arrived(before, s, log, t, authCode, config, w, now, Wire.ReadyPayload(maxRooms, own), trace)
    ensures before + [Hear(w, now), Reset(w, trace.at), Ready(w, maxRooms)] <= log
    ensures trace.ran <==> trace.report.start - s.lastChecked >= config.minCheckIntervalMsec
    ensures !trace.ran ==> |log| == |before| + 3 && w in t.workers
    ensures w in t.workers ==> t.workers[w].initialized && t.workers[w].maxRooms == maxRooms
  {
    hide Wire.ReadPayload, Wire.ReadyPayload, Wire.SamePrefix, Wire.Padded, Checked, Replay;
    Wire.ReadyRoundTrip(maxRooms, own);
    Wire.AuthenticationExact(own, own);
    var start := before + [Hear(w, now)] + [Reset(w, trace.at), Ready(w, maxRooms)];
    assert Checked(start, log, t, trace.ran, trace.report, config);
    assert start == before + [Hear(w, now), Reset(w, trace.at), Ready(w, maxRooms)];
    hide MessageHandled;
    CheckedExtends(start, log, t, trace.ran, trace.report, config);
    LastCheckedBefore(before, s, start, w, now, trace.at, maxRooms);
    LimitAfterCheck(start, log, t, trace.ran, trace.report, config, w);
  }

  lemma CheckedExtends(start: seq<Step>, log: seq<Step>, t: State, ran: bool, report: Report, config: Config)
    requires Checked(start, log, t, ran, report, config)
    ensures start <= log && Replay(start).Legal?
    ensures ran <==> report.start - Replay(start).state.lastChecked >= config.minCheckIntervalMsec
    ensures !ran ==> log == start
  {
    hide CheckDone, Replay;
  }

  lemma LastCheckedBefore(before: seq<Step>, s: State, start: seq<Step>, w: WorkerId, now: Time, at: Time,
                          maxRooms: int32)
    requires Replay(before) == Legal(s) && Replay(start).Legal?
    requires start == before + [Hear(w, now), Reset(w, at), Ready(w, maxRooms)]
    ensures Replay(start).state.lastChecked == s.lastChecked
  {
    hide Replay, OfWorker, InRoom, WithoutWorker, Punish, RecountRooms, RecountWorkers;
    assert start == ((before + [Hear(w, now)]) + [Reset(w, at)]) + [Ready(w, maxRooms)];
    ReplayNext(before, Hear(w, now));
    ReplayNext(before + [Hear(w, now)], Reset(w, at));
    ReplayNext((before + [Hear(w, now)]) + [Reset(w, at)], Ready(w, maxRooms));
  }

  /** A check leaves the limit of every worker it does not delete as announced. */
  lemma LimitAfterCheck(start: seq<Step>, log: seq<Step>, t: State, ran: bool, report: Report, config: Config,
                        w: WorkerId)
    requires Checked(start, log, t, ran, report, config) && Replay(log) == Legal(t)
    requires start != [] && start[|start| - 1].Ready? && start[|start| - 1].worker == w
    ensures !ran ==> w in t.workers
    ensures w in t.workers ==> t.workers[w].initialized && t.workers[w].maxRooms == start[|start| - 1].maxRooms
  {
    hide Replay, SchedulerRuns.Restarts, SchedulerRuns.At, CheckDone;
    CheckedExtends(start, log, t, ran, report, config);
    assert log[..|log|] == log && log[|start| - 1] == start[|start| - 1];
    AtEnd(log, t);
    if !ran || w in t.workers {
      forall m | |start| <= m < |log| ensures !SchedulerRuns.Restarts(log[m], w) {
        CheckKeepsWorker(Replay(start).state, start, t, log, report, config, w, m);
      }
      SchedulerHistory.AnnouncedLimitStands(log, |start| - 1, |log|, w);
    }
  }

  lemma AtEnd(log: seq<Step>, t: State)
    requires Replay(log) == Legal(t)
    ensures SchedulerRuns.At(log, |log|) == t
  {
    assert log[..|log|] == log;
  }

  lemma CheckKeepsWorker(s: State, start: seq<Step>, t: State, log: seq<Step>, report: Report, config: Config,
                         w: WorkerId, m: nat)
    requires CheckDone(start, s, t, log, report, config) && |start| <= m < |log| && w in t.workers
    ensures !SchedulerRuns.Restarts(log[m], w)
  {
    hide CheckDone, CheckLogged, StepOfCheck, SchedulerRuns.Restarts;
    LoggedInCheck(start, s, t, log, report, config);
    LoggedPhases(s, start, log, report, config);
    StepsOfCheck(s, start, log, report, config, m);
    StayingIsNotGone(start, s, t, log, report, config, w);
    StepKeepsWorker(log[m], m, s, start, report, w);
  }

  lemma StayingIsNotGone(start: seq<Step>, s: State, t: State, log: seq<Step>, report: Report, config: Config,
                         w: WorkerId)
    requires CheckDone(start, s, t, log, report, config) && w in t.workers
    ensures w !in report.gone
  {
    hide CheckLogged, Replay, TurnsFit, ListFits, RoomsExact, HeardFrom, InTime;
    GoneWorkers(s, start, log, report, config);
  }

  lemma StepKeepsWorker(step: Step, m: nat, s: State, before: seq<Step>, p: Report, w: WorkerId)
    requires StepOfCheck(step, m, s, before, p) && |before| <= m && |before| < p.swept < p.at && w !in p.gone
    ensures !SchedulerRuns.Restarts(step, w)
  {
  }

  // ----- failures and all else -----

  /** A worker that reports a failed room loses the task, if it had it, with a penalty of the
      configured minutes, and a check is asked for either way. */
  lemma FailureEndsTask(before: seq<Step>, s: State, log: seq<Step>, t: State, authCode: seq<byte>, config: Config,
                        w: WorkerId, now: Time, trace: Trace, room: RoomId)
    requires Arrived(before, s, log, t, authCode, config, w, now, Wire.BasicPayload(Wire.ROOM_FAILED_CODE, room), trace)
    ensures var k := Key(w, room);
            var start := before + [Hear(w, now)] + (if k in s.tasks then [Fail(k, trace.penalty)] else []);
            && start <= log && (!trace.ran ==> log == start)
            && (k in s.tasks ==> trace.penalty.Penalty? && trace.penalty.length == config.workerPenaltyMin * 60000)
    ensures trace.ran <==> trace.report.start - s.lastChecked >= config.minCheckIntervalMsec
  {
    hide Wire.ReadPayload, Wire.BasicPayload, Checked, Replay;
    Wire.FailedRoundTrip(room);
    StateWhenHeard(before, s, w, now);
    var k, heard := Key(w, room), before + [Hear(w, now)];
    var start := if k in s.tasks then heard + [Fail(k, trace.penalty)] else heard;
    assert heard + [] == heard;
    CheckedExtends(start, log, t, trace.ran, trace.report, config);
    if k in s.tasks {
      ReplayNext(heard, Fail(k, trace.penalty));
    }
  }

  /** A message of at least five bytes that is none of the three, or data too short for its
      header, is only heard; a ready message too short for a code deletes the worker. */
  lemma MalformedMessages(before: seq<Step>, s: State, log: seq<Step>, t: State, authCode: seq<byte>, config: Config,
                          w: WorkerId, now: Time, payload: seq<byte>, trace: Trace)
    requires Arrived(before, s, log, t, authCode, config, w, now, payload, trace)
    ensures payload[0] > 2 || (payload[0] == 0 && |payload| < 41) ==> log == before + [Hear(w, now)]
    ensures payload[0] == 1 && |payload| < 37 ==>
      log == before + [Hear(w, now)] + [Reset(w, trace.at), Erase(w), Disconnect(w)]
  {
    hide Wire.ReadPayload, Replay, Checked;
    Wire.PayloadExactly(payload);
  }
}
