/** What a check that ran guarantees, read off its effect on the tables. */
module SchedulerOutcome {
  import opened Bytes
  import opened Prelude
  import opened SchedulerModel
  import opened SchedulerCheck
  import opened SchedulerTables
  import opened SchedulerTrail
  import SchedulerRuns
  import Wire

  /** The numbers of surviving tasks and of tasks after the check, of the i-th room served. */
  lemma TurnCounts(before: seq<Step>, s: State, t: State, log: seq<Step>, p: Report, config: Config, i: nat)
    requires CheckDone(before, s, t, log, p, config) && i < |p.turns|
    ensures i < |p.order| && p.turns[i].room == p.order[i]
    ensures p.turns[i].before == |InRoom(InTime(s, p.sweep, config.workerTimeoutSec * SECOND).Keys, p.order[i])|
    ensures |InRoom(t.tasks.Keys, p.order[i])| == AfterTurn(p.turns[i])
    ensures p.minimum <= p.turns[i].before && 0 <= p.minimum
  {
    hide InRoom, InTime, AfterTurn, Ceiling, HeardFrom, TurnsFollow, CheckLogged, Replay, ListFits, RoomsExact;
  }

  /** A room with a surviving task still has one after the check, no room gains more than
      one task or ends above the ceiling by gaining, and at most ten tasks are cut. */
  lemma ServedRoomsStayServed(before: seq<Step>, s: State, t: State, log: seq<Step>, p: Report, config: Config, i: nat)
    requires CheckDone(before, s, t, log, p, config) && i < |p.turns|
    ensures var r := p.turns[i].room;
            var had := |InRoom(InTime(s, p.sweep, config.workerTimeoutSec * SECOND).Keys, r)|;
            var has := |InRoom(t.tasks.Keys, r)|;
            && (had > 0 ==> has > 0)
            && has <= had + 1 && (has > had ==> has <= p.ceiling)
            && (has < had ==> has >= Min(p.ceiling, p.minimum + 1))
            && (has < had && Trimmed(p.turns) < MAX_DISCONNECTS ==> has == Min(p.ceiling, p.minimum + 1))
            && Trimmed(p.turns) <= MAX_DISCONNECTS
  {
    hide CheckDone, TurnsFollow, InTime, InRoom;
    TurnCounts(before, s, t, log, p, config, i);
    TurnsOfCheck(before, s, t, log, p, config);
    RebalancingKeepsRoomsServed(log, p.turns, p.ceiling, p.minimum, i);
  }

  lemma TurnsOfCheck(before: seq<Step>, s: State, t: State, log: seq<Step>, p: Report, config: Config)
    requires CheckDone(before, s, t, log, p, config)
    ensures TurnsFollow(log, p.turns, p.ceiling, p.minimum) && p.ceiling >= 1
    ensures p.turns != [] ==> p.turns[0].offered == p.list
  {
    hide CheckLogged, Replay, TurnsFollow, TurnsFit, ListFits, InTime, HeardFrom, RoomsExact;
  }

  /** The ceiling never cuts a room: pairs are unique and their workers known, so no room
      has more tasks than there are workers, and the ceiling is at least that many. */
  lemma CutsOnlyUnevenRooms(before: seq<Step>, s: State, t: State, log: seq<Step>, p: Report, config: Config, i: nat)
    requires CheckDone(before, s, t, log, p, config) && i < |p.turns|
    ensures p.turns[i].before <= |t.workers| <= p.ceiling
    ensures Surplus(p.turns[i].before, p.ceiling, p.minimum) > 0 ==> p.turns[i].before > p.minimum + 1
  {
    var timeout := config.workerTimeoutSec * SECOND;
    var kept, heard := InTime(s, p.sweep, timeout), HeardFrom(s.workers, p.sweep, timeout);
    TurnCounts(before, s, t, log, p, config, i);
    SchedulerRuns.DistinctWorkers(InRoom(kept.Keys, p.order[i]), heard.Keys, p.order[i]);
    assert |heard| == |heard.Keys| && |t.workers| == |t.workers.Keys|;
  }

  // ----- what a check sends -----

  /** What step m of a check may be. */
  ghost predicate StepOfCheck(step: Step, m: nat, s: State, before: seq<Step>, p: Report) {
    if m == |before| then step == BeginCheck(p.start)
    else if m < p.swept then (step.Reset? || step.Erase? || step.Disconnect?) && step.worker in p.gone
    else if m < p.at - 1 then step.Unassign? && step.penalty.Penalty?
    else if m == p.at - 1 then step == Recount
    else if m < p.listed then step.Collect? && step.worker in p.list
    else if m < p.purged then
      if step.Unassign? then step.key.room in InactiveRooms(s.rooms) && step.penalty.Penalty?
      else step.PurgeRoom? && step.room in InactiveRooms(s.rooms)
    else TurnStep(step, TurnRooms(p.turns))
  }

  lemma StepsOfFirstHalf(s: State, before: seq<Step>, log: seq<Step>, p: Report, config: Config, m: nat)
    requires Prepared(s, before, log, p, config) && |before| <= m < |log|
    ensures StepOfCheck(log[m], m, s, before, p)
  {
    hide Deletions;
    if m == |before| {
      assert log[m] == log[..|before| + 1][m];
    } else if m < p.swept {
      DeletionSteps(log[..p.swept], |before| + 1, p.gone);
      assert log[m] == log[..p.swept][m];
    } else if m < p.at - 1 {
      assert log[m] == log[..p.at - 1][m];
    } else if m >= p.at {
      assert log[m] == log[p.at + (m - p.at)];
      assert p.collected[m - p.at] in p.collected;
    }
  }

  /** A check sends and changes nothing else. */
  lemma StepsOfCheck(s: State, before: seq<Step>, log: seq<Step>, p: Report, config: Config, m: nat)
    requires CheckLogged(s, before, log, p, config) && |before| <= m < |log|
    ensures StepOfCheck(log[m], m, s, before, p)
  {
    hide Prepared, TurnsLogged, StepOfCheck;
    PhasesInOrder(s, before, log[..p.listed], p, config);
    if m < p.listed {
      StepsOfFirstHalf(s, before, log[..p.listed], p, config, m);
    } else if m < p.purged {
      assert log[m] == log[..p.purged][m];
      PurgeStepOf(s, before, log[m], m, p);
    } else {
      TurnSteps(log, p.purged, p.turns);
      TurnStepOf(s, before, log[m], m, p);
    }
  }

  lemma PhasesInOrder(s: State, before: seq<Step>, log: seq<Step>, p: Report, config: Config)
    requires Prepared(s, before, log, p, config)
    ensures |before| < p.swept < p.at <= p.listed == |log|
  {
  }

  lemma PurgeStepOf(s: State, before: seq<Step>, step: Step, m: nat, p: Report)
    requires |before| < p.swept < p.at <= p.listed <= m < p.purged
    requires if step.Unassign? then step.key.room in InactiveRooms(s.rooms) && step.penalty.Penalty?
             else step.PurgeRoom? && step.room in InactiveRooms(s.rooms)
    ensures StepOfCheck(step, m, s, before, p)
  {
  }

  lemma TurnStepOf(s: State, before: seq<Step>, step: Step, m: nat, p: Report)
    requires |before| < p.swept < p.at <= p.listed <= p.purged <= m && TurnStep(step, TurnRooms(p.turns))
    ensures StepOfCheck(step, m, s, before, p)
  {
  }

  /** A task lost in a check was taken away with a message to its worker, or its worker was
      silent and is deleted. */
  lemma LostTasksWereTold(before: seq<Step>, s: State, t: State, log: seq<Step>, p: Report, config: Config, k: Key)
    returns (m: nat)
    requires CheckDone(before, s, t, log, p, config) && k in s.tasks && k !in t.tasks
    ensures |before| <= m < |log|
    ensures if log[m].Unassign? then log[m].key == k
            else log[m].Reset? && log[m].worker == k.worker && k.worker !in t.workers
  {
    hide Replay, CheckLogged, InTime, HeardFrom, TurnsFit, TurnsFollow, ListFits, RoomsExact, Distinct, Gained, GivenTo;
    assert log[..|before|] == before && log[..|log|] == log;
    m := SchedulerRuns.TaskLossIsLogged(log, |before|, |log|, k);
    StepsOfCheck(s, before, log, p, config, m);
    GoneWorkers(s, before, log, p, config);
  }

  lemma GoneWorkers(s: State, before: seq<Step>, log: seq<Step>, p: Report, config: Config)
    requires CheckLogged(s, before, log, p, config)
    ensures forall w :: w in p.gone ==> w !in HeardFrom(s.workers, p.sweep, config.workerTimeoutSec * SECOND)
  {
    hide HeardFrom, TurnsLogged, OnlyPurges, Deletions, OnlyPenalties, Collects;
  }

  /** A task of an inactive room is gone after the check, and its worker was told so if it
      is still there. */
  lemma PurgedTasksWereTold(before: seq<Step>, s: State, t: State, log: seq<Step>, p: Report, config: Config, k: Key)
    returns (m: nat)
    requires CheckDone(before, s, t, log, p, config) && k in s.tasks && k.worker in t.workers
    requires k.room in s.rooms && !s.rooms[k.room].active
    ensures k !in t.tasks && k.room !in t.rooms
    ensures |before| <= m < |log| && log[m].Unassign? && log[m].key == k && log[m].penalty.Penalty?
  {
    hide CheckDone, CheckLogged, TurnRooms;
    OnlyActiveRoomsStay(before, s, t, log, p, config);
    m := LostTasksWereTold(before, s, t, log, p, config, k);
    LoggedInCheck(before, s, t, log, p, config);
    StepsOfCheck(s, before, log, p, config, m);
  }

  lemma LoggedInCheck(before: seq<Step>, s: State, t: State, log: seq<Step>, p: Report, config: Config)
    requires CheckDone(before, s, t, log, p, config)
    ensures CheckLogged(s, before, log, p, config)
  {
  }

  /** Rooms that take a turn are those that stay, which are the active ones. */
  lemma OnlyActiveRoomsStay(before: seq<Step>, s: State, t: State, log: seq<Step>, p: Report, config: Config)
    requires CheckDone(before, s, t, log, p, config)
    ensures t.rooms.Keys == ActiveRooms(s) && TurnRooms(p.turns) <= t.rooms.Keys
    ensures forall k :: k in t.tasks ==> k.room in t.rooms
  {
    hide Replay, CheckLogged, InTime, HeardFrom, TurnsFollow, ListFits, RoomsExact, Distinct, Gained, GivenTo;
    forall r | r in TurnRooms(p.turns) ensures r in t.rooms {
      var i :| 0 <= i < |p.turns| && p.turns[i].room == r;
      assert p.order[i] in p.order;
    }
  }

  /** A check takes away at most ten tasks without a penalty: exactly those its turns cut. */
  lemma CutsAreFew(before: seq<Step>, s: State, t: State, log: seq<Step>, p: Report, config: Config)
    requires CheckDone(before, s, t, log, p, config)
    ensures Cuts(log, |before|) == Trimmed(p.turns) <= MAX_DISCONNECTS
  {
    hide Prepared, TurnsLogged, StepOfCheck, Cuts, Replay, InTime, HeardFrom, TurnsFit, ListFits, RoomsExact, Distinct;
    PhasesInOrder(s, before, log[..p.listed], p, config);
    forall m | |before| <= m < p.purged ensures !(log[m].Unassign? && log[m].penalty == NoPenalty) {
      StepsOfCheck(s, before, log, p, config, m);
      BeforeTurns(log[m], m, s, before, p);
    }
    NoCuts(log[..p.purged], |before|);
    CutsSplit(log, |before|, p.purged);
    CutsOfTurns(log, p.purged, p.turns);
    if p.turns != [] {
      assert p.ceiling >= 1;
      TurnWithinAllowance(log, p.turns, p.ceiling, p.minimum, |p.turns| - 1);
      LastTrimmed(p.turns);
    }
  }

  lemma LastTrimmed(turns: seq<Turn>)
    requires turns != []
    ensures Trimmed(turns) == Trimmed(turns[..|turns| - 1]) + turns[|turns| - 1].trimmed
  {
  }

  lemma BeforeTurns(step: Step, m: nat, s: State, before: seq<Step>, p: Report)
    requires StepOfCheck(step, m, s, before, p) && m < p.purged
    ensures !(step.Unassign? && step.penalty == NoPenalty)
  {
  }

  // ----- rooms left without a new task -----

  /** Out of its quota, or over its limit. */
  predicate Exhausted(s: State, w: WorkerId) {
    w in s.workers && (s.workers[w].connections > s.workers[w].maxRooms || s.workers[w].remaining <= 0)
  }

  lemma ListedWorkerStays(before: seq<Step>, s: State, t: State, log: seq<Step>, p: Report, config: Config,
                          w: WorkerId, j: nat)
    requires CheckDone(before, s, t, log, p, config) && w in p.list && j < |p.turns|
    ensures w in StateAt(log, p.turns[j]).workers
  {
    hide CheckDone, CheckLogged, TurnsLogged, Prepared, StepOfCheck, Replay;
    CheckedList(before, s, t, log, p, config, w);
    LoggedPhases(s, before, log, p, config);
    TurnPosition(log, p.purged, p.turns, j);
    forall m | p.at <= m < p.turns[j].at ensures !log[m].Erase? {
      StepsOfCheck(s, before, log, p, config, m);
      NoErasure(log[m], m, s, before, p);
    }
    SchedulerRuns.WorkerStays(log, p.at, p.turns[j].at, w);
    ReplayPrefix(log, p.turns[j].at);
  }

  lemma CheckedList(before: seq<Step>, s: State, t: State, log: seq<Step>, p: Report, config: Config, w: WorkerId)
    requires CheckDone(before, s, t, log, p, config) && w in p.list
    ensures Replay(log).Legal? && CheckLogged(s, before, log, p, config)
    ensures p.at <= |log| && w in SchedulerRuns.At(log, p.at).workers
  {
    hide CheckLogged, TurnsFit, TurnsFollow, InTime, HeardFrom, RoomsExact, Replay, Distinct, FreestFirst;
  }

  lemma LoggedPhases(s: State, before: seq<Step>, log: seq<Step>, p: Report, config: Config)
    requires CheckLogged(s, before, log, p, config)
    ensures |before| < p.swept < p.at <= p.listed <= p.purged <= |log| && TurnsLogged(log, p.purged, p.turns)
  {
    hide TurnsLogged;
  }

  lemma NoErasure(step: Step, m: nat, s: State, before: seq<Step>, p: Report)
    requires StepOfCheck(step, m, s, before, p) && |before| < p.swept < p.at <= m
    ensures !step.Erase?
  {
  }

  /** A room whose turn began below the ceiling gained nothing only because every worker the
      check had listed held the room by then, or was exhausted at its turn or, erased from
      the list, at an earlier one. */
  lemma UnservedRoomsHadNobody(before: seq<Step>, s: State, t: State, log: seq<Step>, p: Report, config: Config,
                               i: nat, w: WorkerId) returns (j: nat)
    requires CheckDone(before, s, t, log, p, config) && i < |p.turns| && w in p.list
    requires p.turns[i].before < p.ceiling && p.turns[i].gained == None
    ensures j <= i
    ensures Exhausted(StateAt(log, p.turns[j]), w)
         || (j == i && Key(w, p.turns[i].room) in StateAt(log, p.turns[i]).tasks)
  {
    hide CheckDone, TurnsFollow, StateAt, TurnDecides;
    TurnsOfCheck(before, s, t, log, p, config);
    j := OfferedOrErased(log, p.turns, p.ceiling, p.minimum, i, w);
    ListedWorkerStays(before, s, t, log, p, config, w, j);
    if j == i {
      TurnDecided(log, p.turns, p.ceiling, p.minimum, i);
      GreedyIsComplete(StateAt(log, p.turns[i]), p.turns[i], p.ceiling, p.minimum,
                       MAX_DISCONNECTS - Trimmed(p.turns[..i]));
    }
  }

  lemma TurnDecided(log: seq<Step>, turns: seq<Turn>, ceiling: int, minimum: int, i: nat)
    requires TurnsFollow(log, turns, ceiling, minimum) && i < |turns|
    ensures Trimmed(turns[..i]) <= MAX_DISCONNECTS
    ensures TurnDecides(StateAt(log, turns[i]), turns[i], ceiling, minimum, MAX_DISCONNECTS - Trimmed(turns[..i]))
  {
    hide TurnDecides, StateAt;
    assert TurnFollows(log, turns, i, ceiling, minimum);
  }

  // ----- room lists -----

  /** What update_room_lists does to the rooms. */
  ghost predicate Listed(s: State, t: State, list: set<RoomId>) {
    && t.rooms.Keys == s.rooms.Keys + list
    && forall r :: r in t.rooms ==>
         t.rooms[r] == if r in s.rooms then s.rooms[r].(active := s.rooms[r].active && r in list) else NewRoom()
  }

  /** A room list is in force after any events but another list, and a check: every room is
      on the list and every task is of such a room, and every task of another room was
      taken away with a message, unless its worker was silent.  The rooms are exactly the
      list if and only if no listed room was waiting to be purged when the list came. */
  lemma RoomListTakesEffect(first: State, listed: seq<Step>, list: set<RoomId>,
                            before: seq<Step>, s: State, t: State, log: seq<Step>, p: Report, config: Config)
    requires Replay(listed).Legal? && Listed(first, Replay(listed).state, list)
    requires listed <= before && NoRoomList(before, |listed|)
    requires CheckDone(before, s, t, log, p, config)
    ensures t.rooms.Keys <= list && forall k :: k in t.tasks ==> k.room in list
    ensures t.rooms.Keys == list <==> forall r :: r in list && r in first.rooms ==> first.rooms[r].active
    ensures forall k :: k in s.tasks && k.room !in list && k.worker in t.workers ==>
      exists m :: |before| <= m < |log| && log[m].Unassign? && log[m].key == k
  {
    hide Replay, CheckLogged, InTime, HeardFrom, TurnsFit, TurnsFollow, ListFits, RoomsExact, Distinct, Gained, GivenTo;
    assert before[..|listed|] == listed;
    ActiveRoomsStay(before, |listed|);
    assert t.rooms.Keys == ActiveRooms(s) == ActiveRooms(Replay(listed).state);
    forall k | k in s.tasks && k.room !in list && k.worker in t.workers
      ensures exists m :: |before| <= m < |log| && log[m].Unassign? && log[m].key == k
    {
      var m := LostTasksWereTold(before, s, t, log, p, config, k);
    }
    RoomsInForce(first, Replay(listed).state, list);
  }

  lemma RoomsInForce(first: State, s: State, list: set<RoomId>)
    requires Listed(first, s, list)
    ensures ActiveRooms(s) <= list
    ensures ActiveRooms(s) == list <==> forall r :: r in list && r in first.rooms ==> first.rooms[r].active
  {
    if ActiveRooms(s) == list {
      forall r | r in list && r in first.rooms ensures first.rooms[r].active {
        assert r in ActiveRooms(s);
      }
    }
  }

  // ----- what the other events leave alone -----

  function PopularityInterval(config: Config): Time {
    config.minIntervalPopularitySec * SECOND
  }

  lemma CheckedIsQuiet(before: seq<Step>, log: seq<Step>, t: State, ran: bool, report: Report, config: Config,
                       interval: Time)
    requires Checked(before, log, t, ran, report, config)
    ensures before <= log && NoRoomList(log, |before|) && Paced(log, |before|, interval)
  {
    hide CheckLogged, TurnsFit, TurnsFollow, ListFits, InTime, HeardFrom, RoomsExact, Paced;
    if ran {
      forall m | |before| <= m < |log|
        ensures !log[m].Deactivate? && !log[m].AddRoom? && !log[m].MarkEmpty? && !log[m].Forward?
      {
        StepsOfCheck(Replay(before).state, before, log, report, config, m);
      }
    }
    NothingPassedOn(log, |before|, interval);
  }

  lemma QuietTwice(heard: seq<Step>, start: seq<Step>, log: seq<Step>, interval: Time)
    requires heard <= start <= log
    requires forall m :: |heard| <= m < |start| ==>
      !start[m].Deactivate? && !start[m].AddRoom? && !start[m].MarkEmpty? && !start[m].Forward?
    requires NoRoomList(log, |start|) && Paced(log, |start|, interval)
    ensures NoRoomList(log, |heard|) && Paced(log, |heard|, interval)
  {
    hide Paced;
    NothingPassedOn(start, |heard|, interval);
    NoRoomListTwice(start, log, |heard|);
    PacedTwice(start, log, |heard|, interval);
  }

  lemma MarkedDataIsPaced(heard: seq<Step>, k: Key, now: Time, m: Wire.Incoming, interval: Time)
    requires Replay(heard).Legal? && k in Replay(heard).state.tasks && k.room in Replay(heard).state.rooms
    requires now - Replay(heard).state.rooms[k.room].lastEmptyCrc >= interval
    ensures Paced(heard + [Touch(k, now), MarkEmpty(k.room, now), Forward(k, m)], |heard|, interval)
  {
    hide Replay, RemoveTask, AddTask, RecountRooms, RecountWorkers, InRoom, OfWorker, WithoutWorker;
    var log := heard + [Touch(k, now), MarkEmpty(k.room, now), Forward(k, m)];
    assert log[..|heard| + 1] == heard + [Touch(k, now)];
    ReplayNext(heard, Touch(k, now));
    assert KeepsDistance(log, |heard|, |heard|, interval);
    assert KeepsDistance(log, |heard|, |heard| + 1, interval);
    assert KeepsDistance(log, |heard|, |heard| + 2, interval);
  }

  lemma DataSteps(s: State, config: Config, k: Key, now: Time, m: Wire.Incoming)
    requires m.Data?
    ensures var steps := StepsOfData(s, config, k, now, m);
            if |steps| == 3 then
              && steps == [Touch(k, now), MarkEmpty(k.room, now), Forward(k, m)]
              && k in s.tasks && k.room in s.rooms
              && now - s.rooms[k.room].lastEmptyCrc >= PopularityInterval(config)
            else forall step :: step in steps ==> step.Touch? || (step.Forward? && !Unchecked(step))
  {
  }

  /** Data is passed on at the configured pace. */
  lemma DataIsPaced(heard: seq<Step>, config: Config, k: Key, now: Time, m: Wire.Incoming)
    requires Replay(heard).Legal? && m.Data?
    ensures var log := heard + StepsOfData(Replay(heard).state, config, k, now, m);
            NoRoomList(log, |heard|) && Paced(log, |heard|, PopularityInterval(config))
  {
    hide Replay, Paced, StepsOfData, PopularityInterval;
    var steps := StepsOfData(Replay(heard).state, config, k, now, m);
    DataSteps(Replay(heard).state, config, k, now, m);
    if |steps| == 3 {
      MarkedDataIsPaced(heard, k, now, m, PopularityInterval(config));
    } else {
      assert forall n :: |heard| <= n < |heard + steps| ==> (heard + steps)[n] in steps;
      NothingPassedOn(heard + steps, |heard|, PopularityInterval(config));
    }
  }

  /** Only a room list changes which rooms are listed, and payloads without checksum keep
      their distance. */
  lemma MessageIsQuiet(heard: seq<Step>, log: seq<Step>, t: State, authCode: seq<byte>, config: Config,
                       w: WorkerId, now: Time, m: Wire.Incoming, trace: Trace)
    requires MessageHandled(heard, log, t, authCode, config, w, now, m, trace)
    ensures heard <= log && NoRoomList(log, |heard|) && Paced(log, |heard|, PopularityInterval(config))
  {
    hide Checked, Replay, Paced, NoRoomList, StepsOfData;
    var interval := PopularityInterval(config);
    match m
    case Ready(maxRooms, auth) =>
      var start := heard + [Reset(w, trace.at), Step.Ready(w, maxRooms)];
      if |authCode| == |auth| == Wire.AUTH_CODE_SIZE && Wire.SamePrefix(authCode, auth, Wire.AUTH_CODE_SIZE) {
        CheckedIsQuiet(start, log, t, trace.ran, trace.report, config, interval);
        QuietTwice(heard, start, log, interval);
      } else {
        NothingLogged(log, interval);
        QuietTwice(heard, log, log, interval);
      }
    case Failed(room) =>
      var held := Key(w, room) in Replay(heard).state.tasks;
      var start := if held then heard + [Fail(Key(w, room), trace.penalty)] else heard;
      CheckedIsQuiet(start, log, t, trace.ran, trace.report, config, interval);
      QuietTwice(heard, start, log, interval);
    case Data(room, _, _, _) => DataIsPaced(heard, config, Key(w, room), now, m);
    case _ => NothingLogged(log, interval);
  }

  lemma NothingLogged(log: seq<Step>, interval: Time)
    ensures NoRoomList(log, |log|) && Paced(log, |log|, interval)
  {
  }
}
