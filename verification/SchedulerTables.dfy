/** Relations between the scheduler's tables before and after its operations: what each
    phase of a check and each message leaves changed and unchanged, and how the phases
    compose into the effect of a whole check (`CheckDone`). */
module SchedulerTables {
  import opened Bytes
  import opened Prelude
  import opened SchedulerModel
  import opened SchedulerCheck
  import opened SchedulerTrail
  import Wire

  const SECOND: Time := 1000
  const MINUTE: Time := 60 * SECOND

  datatype Config = Config(
    workerTimeoutSec: int,
    minCheckIntervalMsec: int,
    workerPenaltyMin: int,
    maxNewTasksPerBunch: int,
    minIntervalPopularitySec: int)

  /** A worker none of whose tasks is silent is not penalised. */
  ghost predicate Spared(had: map<Key, Time>, was: map<WorkerId, Worker>, workers: map<WorkerId, Worker>,
                         now: Time, timeout: Time)
  {
    forall w :: w in workers && w in was && (forall k :: k in had && k.worker == w ==> now - had[k] < timeout) ==>
      workers[w].allowAfter == was[w].allowAfter
  }

  lemma NobodyDeleted(log: seq<Step>)
    ensures Deletions(log, |log|, []) && Distinct<WorkerId>([])
  {
  }

  lemma NobodyCollected(log: seq<Step>, quota: int)
    ensures Collects(log, |log|, [], quota)
  {
  }

  lemma DistinctNext(list: seq<WorkerId>, w: WorkerId)
    requires Distinct(list) && w !in list
    ensures Distinct(list + [w])
  {
  }

  lemma PurgesTwice(log: seq<Step>, longer: seq<Step>, i: nat, r: RoomId, gone: set<RoomId>, length: Time)
    requires OnlyPurges(log, i, gone, length) && log <= longer && OnlyPurges(longer, |log|, {r}, length) && r in gone
    ensures OnlyPurges(longer, i, gone, length)
  {
    forall m | i <= m < |longer|
      ensures if longer[m].Unassign? then
                longer[m].key.room in gone && longer[m].penalty.Penalty? && longer[m].penalty.length == length
              else longer[m].PurgeRoom? && longer[m].room in gone
    {
      if m < |log| {
        assert longer[m] == log[m];
      }
    }
  }

  lemma SparedSelf(had: map<Key, Time>, workers: map<WorkerId, Worker>, now: Time, timeout: Time)
    ensures Spared(had, workers, workers, now, timeout)
  {
  }

  /** Penalising the worker of a silent task spares the others. */
  lemma SparedNext(had: map<Key, Time>, was: map<WorkerId, Worker>, s: State, k: Key, p: Penalty,
                   now: Time, timeout: Time)
    requires Spared(had, was, s.workers, now, timeout) && k in s.tasks
    requires k in had && now - had[k] >= timeout
    ensures Spared(had, was, RemoveTask(s, k, p).workers, now, timeout)
  {
  }

  /** Nothing about the workers changed but their counters and penalties. */
  ghost predicate SameDuties(a: map<WorkerId, Worker>, b: map<WorkerId, Worker>) {
    && a.Keys == b.Keys
    && forall w :: w in a ==> b[w] == a[w].(connections := b[w].connections, allowAfter := b[w].allowAfter)
  }

  lemma SameDutiesSelf(a: map<WorkerId, Worker>)
    ensures SameDuties(a, a)
  {
  }

  lemma SameDutiesTwice(a: map<WorkerId, Worker>, b: map<WorkerId, Worker>, c: map<WorkerId, Worker>)
    requires SameDuties(a, b) && SameDuties(b, c)
    ensures SameDuties(a, c)
  {
  }

  /** Nothing about the rooms changed but their counters. */
  ghost predicate SameRooms(a: map<RoomId, Room>, b: map<RoomId, Room>) {
    a.Keys == b.Keys && forall r :: r in a ==> b[r] == a[r].(connections := b[r].connections)
  }

  lemma AddedTask(s: State, k: Key)
    requires k.worker in s.workers && k.room in s.rooms
    ensures var t := AddTask(s, k);
            && t.tasks == s.tasks[k := s.lastChecked] && t.lastChecked == s.lastChecked && t.available == s.available
            && t.workers.Keys == s.workers.Keys && SameRooms(s.rooms, t.rooms)
            && t.rooms[k.room].connections == s.rooms[k.room].connections + 1
            && (forall r :: r in s.rooms && r != k.room ==> t.rooms[r] == s.rooms[r])
            && (forall w :: w in s.workers ==>
                  t.workers[w].remaining == s.workers[w].remaining - (if w == k.worker then 1 else 0))
  {
  }

  /** The orders of compare_worker and room_status_less_tasks. */
  ghost predicate FreestFirst(workers: map<WorkerId, Worker>, list: seq<WorkerId>) {
    && (forall w :: w in list ==> w in workers)
    && forall i, j :: 0 <= i < j < |list| ==>
         workers[list[i]].maxRooms - workers[list[i]].connections
         >= workers[list[j]].maxRooms - workers[list[j]].connections
  }

  ghost predicate FewestFirst(rooms: map<RoomId, Room>, list: seq<RoomId>) {
    && (forall r :: r in list ==> r in rooms)
    && forall i, j :: 0 <= i < j < |list| ==> rooms[list[i]].connections <= rooms[list[j]].connections
  }

  lemma RemovedTask(s: State, k: Key, p: Penalty)
    requires k in s.tasks
    ensures var t := RemoveTask(s, k, p);
            && t.tasks == s.tasks - {k} && t.lastChecked == s.lastChecked && t.available == s.available
            && SameDuties(s.workers, t.workers)
            && t.rooms.Keys == s.rooms.Keys
            && (forall r :: r in s.rooms && r != k.room ==> t.rooms[r] == s.rooms[r])
            && SameRooms(s.rooms, t.rooms)
  {
  }

  /** What data of worker and room k leads to: nothing without the task, and no forwarding
      of a payload without checksum that follows another of its room too soon. */
  function StepsOfData(s: State, config: Config, k: Key, now: Time, m: Wire.Incoming): seq<Step>
    requires m.Data?
  {
    if k !in s.tasks then []
    else if m.checksum != 0 then [Touch(k, now), Forward(k, m)]
    else if k.room !in s.rooms || now - s.rooms[k.room].lastEmptyCrc < config.minIntervalPopularitySec * SECOND then
      [Touch(k, now)]
    else [Touch(k, now), MarkEmpty(k.room, now), Forward(k, m)]
  }

  /** The readings and results of handling a message. */
  datatype Trace = Trace(at: Time, penalty: Penalty, ran: bool, report: Report)

  function NoTrace(): Trace {
    Trace(0, NoPenalty, false, NoReport(0))
  }

  /** A check was asked for when the log was `before`: it ran exactly if the interval was
      over, with its whole effect or none. */
  ghost predicate Checked(before: seq<Step>, log: seq<Step>, t: State, ran: bool, report: Report, config: Config) {
    && before <= log && Replay(before).Legal?
    && var s := Replay(before).state;
    && (ran <==> report.start - s.lastChecked >= config.minCheckIntervalMsec)
    && (if ran then CheckDone(before, s, t, log, report, config) else log == before && t == s)
  }

  /** What a message of a known worker leads to, from the moment it has been heard. */
  ghost predicate MessageHandled(heard: seq<Step>, log: seq<Step>, t: State, authCode: seq<byte>, config: Config,
                                 w: WorkerId, now: Time, m: Wire.Incoming, trace: Trace)
  {
    && Replay(heard).Legal?
    && match m
       case Ready(maxRooms, auth) =>
         if |authCode| == |auth| == Wire.AUTH_CODE_SIZE && Wire.SamePrefix(authCode, auth, Wire.AUTH_CODE_SIZE)
         then Checked(heard + [Reset(w, trace.at), Ready(w, maxRooms)], log, t, trace.ran, trace.report, config)
         else log == heard + [Reset(w, trace.at), Erase(w), SchedulerModel.Disconnect(w)]
       case Failed(room) =>
         if Key(w, room) in Replay(heard).state.tasks then
           trace.penalty.Penalty? && trace.penalty.length == config.workerPenaltyMin * MINUTE &&
           Checked(heard + [Fail(Key(w, room), trace.penalty)], log, t, trace.ran, trace.report, config)
         else Checked(heard, log, t, trace.ran, trace.report, config)
       case Data(room, _, _, _) =>
         log == heard + StepsOfData(Replay(heard).state, config, Key(w, room), now, m)
       case _ => log == heard
  }

  /** What a check decided, and how long the log was after each of its phases. */
  datatype Report = Report(
    start: Time,
    sweep: Time,                // the second clock reading, for the timeouts
    gone: seq<WorkerId>,        // the workers deleted, in order
    swept: nat,                 // ... up to here
    at: nat,                    // after the recount
    collected: seq<WorkerId>,   // the workers collected, in order
    list: seq<WorkerId>,        // the same, freest first
    listed: nat,                // after the collection
    purged: nat,                // after the purge
    ceiling: int,
    minimum: int,
    order: seq<RoomId>,
    turns: seq<Turn>)

  function NoReport(start: Time): Report {
    Report(start, 0, [], 0, 0, [], [], 0, 0, 0, 0, [], [])
  }

  /** The workers heard from recently enough. */
  function HeardFrom(workers: map<WorkerId, Worker>, sweep: Time, timeout: Time): map<WorkerId, Worker> {
    map w | w in workers && sweep - workers[w].lastReceived <= timeout :: workers[w]
  }

  /** The tasks that survive the timeouts. */
  function InTime(s: State, sweep: Time, timeout: Time): map<Key, Time> {
    var heard := HeardFrom(s.workers, sweep, timeout);
    map k | k in s.tasks && k.worker in heard && sweep - s.tasks[k] < timeout :: s.tasks[k]
  }

  lemma InTimeSame(s: State, t: State, sweep: Time, timeout: Time)
    requires s.tasks == t.tasks && s.workers == t.workers
    ensures InTime(s, sweep, timeout) == InTime(t, sweep, timeout)
  {
  }

  /** One turn for each room in order, from its task count before to that after; the rooms
      come with the fewest tasks first, and the minimum is theirs. */
  ghost predicate TurnsFit(before: map<Key, Time>, after: map<Key, Time>, order: seq<RoomId>, turns: seq<Turn>,
                           minimum: int)
  {
    && |turns| == |order|
    && (forall i :: 0 <= i < |turns| ==>
          && turns[i].room == order[i]
          && turns[i].before == |InRoom(before.Keys, order[i])|
          && minimum <= turns[i].before
          && |InRoom(after.Keys, order[i])| == AfterTurn(turns[i]))
    && (forall i, j :: 0 <= i < j < |turns| ==> turns[i].before <= turns[j].before)
    && 0 <= minimum <= NO_MINIMUM
    && (minimum < NO_MINIMUM ==> exists i :: 0 <= i < |turns| && turns[i].before == minimum)
  }

  /** The list of a check: right after the recount, exactly the workers below their limit
      and past their penalty, freest first.  Only workers with a silent task had been
      penalised by then. */
  ghost predicate ListFits(s: State, log: seq<Step>, p: Report, timeout: Time) {
    && p.at <= |log| && Replay(log[..p.at]).Legal?
    && var mid := Replay(log[..p.at]).state;
    && mid.tasks == InTime(s, p.sweep, timeout) && mid.lastChecked == p.start
    && SameLimits(HeardFrom(s.workers, p.sweep, timeout), mid.workers)
    && Spared(s.tasks, s.workers, mid.workers, p.sweep, timeout)
    && Distinct(p.list) && (forall w :: w in p.list <==> CanCollect(mid, w)) && FreestFirst(mid.workers, p.list)
  }

  lemma ListFitsLater(s: State, log: seq<Step>, longer: seq<Step>, p: Report, timeout: Time)
    requires ListFits(s, log, p, timeout) && log <= longer
    ensures ListFits(s, longer, p, timeout)
  {
    assert longer[..p.at] == log[..p.at];
  }

  lemma ListOfSame(s: State, log: seq<Step>, p: Report, q: Report, timeout: Time)
    requires ListFits(s, log, p, timeout)
    requires q.at == p.at && q.list == p.list && q.sweep == p.sweep && q.start == p.start
    ensures ListFits(s, log, q, timeout)
  {
  }

  lemma SparedCounted(had: map<Key, Time>, was: map<WorkerId, Worker>, s1: State, now: Time, timeout: Time)
    requires Spared(had, was, s1.workers, now, timeout)
    ensures Spared(had, was, RecountWorkers(s1.tasks, s1.workers), now, timeout)
  {
    hide OfWorker;
  }

  /** Deleting silent workers with their tasks penalises nobody. */
  lemma SparedByDeletions(had: map<Key, Time>, was: map<WorkerId, Worker>, left: map<Key, Time>,
                          kept: map<WorkerId, Worker>, workers: map<WorkerId, Worker>, now: Time, timeout: Time)
    requires Spared(left, kept, workers, now, timeout) && workers.Keys <= kept.Keys
    requires forall w :: w in kept ==> w in was && kept[w] == was[w]
    requires forall k :: k in left ==> k in had && left[k] == had[k]
    ensures Spared(had, was, workers, now, timeout)
  {
  }

  lemma FreestSame(a: map<WorkerId, Worker>, b: map<WorkerId, Worker>, list: seq<WorkerId>)
    requires FreestFirst(a, list) && a.Keys == b.Keys
    requires forall w :: w in a ==> a[w].maxRooms == b[w].maxRooms && a[w].connections == b[w].connections
    ensures FreestFirst(b, list)
  {
  }

  lemma ListAssembled(s: State, s1: State, s2: State, log: seq<Step>, longer: seq<Step>, p: Report, timeout: Time)
    requires Replay(log) == Legal(s2) && log <= longer && p.at == |log| && s2 == Apply(s1, Recount)
    requires s1.tasks == InTime(s, p.sweep, timeout) && s1.lastChecked == p.start
    requires SameDuties(HeardFrom(s.workers, p.sweep, timeout), s1.workers)
    requires Spared(s.tasks, s.workers, s1.workers, p.sweep, timeout)
    requires Distinct(p.list) && (forall w :: w in p.list <==> CanCollect(s2, w)) && FreestFirst(s2.workers, p.list)
    ensures ListFits(s, longer, p, timeout) && SameLimits(HeardFrom(s.workers, p.sweep, timeout), s2.workers)
  {
    hide Replay, InTime, HeardFrom, Spared, SameDuties, FreestFirst, Distinct, RecountWorkers, RecountRooms;
    hide CanCollect, SameLimits;
    assert longer[..p.at] == log;
    LimitsOfCheck(HeardFrom(s.workers, p.sweep, timeout), s1, s2.workers);
    SparedCounted(s.tasks, s.workers, s1, p.sweep, timeout);
  }

  /** The log of the first half of a check: the start, the deletion of the silent workers,
      the silent tasks taken away, the recount, and the collection of the workers. */
  ghost predicate Prepared(s: State, before: seq<Step>, log: seq<Step>, p: Report, config: Config) {
    && |before| < p.swept < p.at <= p.listed == |log|
    && log[..|before| + 1] == before + [BeginCheck(p.start)]
    && Deletions(log[..p.swept], |before| + 1, p.gone)
    && Distinct(p.gone)
    && (forall w :: w in p.gone <==>
          w in s.workers && w !in HeardFrom(s.workers, p.sweep, config.workerTimeoutSec * SECOND))
    && OnlyPenalties(log[..p.at - 1], p.swept, config.workerPenaltyMin * MINUTE)
    && log[p.at - 1] == Recount
    && Collects(log, p.at, p.collected, config.maxNewTasksPerBunch)
    && Distinct(p.collected) && (forall w :: w in p.collected <==> w in p.list)
  }

  lemma PreparedFrom(s: State, before: seq<Step>, begun: seq<Step>, swept: seq<Step>, counted: seq<Step>,
                     log: seq<Step>, p: Report, config: Config)
    requires begun == before + [BeginCheck(p.start)] && begun <= swept && counted == swept + [Recount] && counted <= log
    requires |begun| <= p.swept <= |swept| && p.at == |counted| && p.listed == |log|
    requires Deletions(swept[..p.swept], |begun|, p.gone) && Distinct(p.gone)
    requires forall w :: w in p.gone <==>
      w in s.workers && w !in HeardFrom(s.workers, p.sweep, config.workerTimeoutSec * SECOND)
    requires OnlyPenalties(swept, p.swept, config.workerPenaltyMin * MINUTE)
    requires Collects(log, |counted|, p.collected, config.maxNewTasksPerBunch)
    requires Distinct(p.collected) && forall w :: w in p.collected <==> w in p.list
    ensures Prepared(s, before, log, p, config)
  {
    hide Deletions, OnlyPenalties, Collects, HeardFrom, Distinct;
    assert log[..p.at - 1] == swept && log[p.at - 1] == counted[|swept|];
    assert log[..p.swept] == swept[..p.swept] && log[..|before| + 1] == begun;
  }

  /** The log of a whole check.  Nothing but this is logged. */
  ghost predicate CheckLogged(s: State, before: seq<Step>, log: seq<Step>, p: Report, config: Config) {
    && p.listed <= p.purged <= |log|
    && Prepared(s, before, log[..p.listed], p, config)
    && OnlyPurges(log[..p.purged], p.listed, InactiveRooms(s.rooms), config.workerPenaltyMin * MINUTE)
    && TurnsLogged(log, p.purged, p.turns)
  }

  lemma CheckLoggedFrom(s: State, mid: State, before: seq<Step>, prepared: seq<Step>, log: seq<Step>,
                        first: Report, p: Report, config: Config)
    requires Prepared(s, before, prepared, first, config) && prepared <= log
    requires p == first.(purged := p.purged, ceiling := p.ceiling, minimum := p.minimum, order := p.order,
                         turns := p.turns)
    requires SameRooms(s.rooms, mid.rooms) && |prepared| <= p.purged <= |log|
    requires OnlyPurges(log[..p.purged], |prepared|, InactiveRooms(mid.rooms), config.workerPenaltyMin * MINUTE)
    requires TurnsLogged(log, p.purged, p.turns)
    ensures CheckLogged(s, before, log, p, config)
  {
    hide Deletions, OnlyPenalties, Collects, HeardFrom, Distinct, OnlyPurges, TurnsLogged;
    assert log[..p.listed] == prepared;
    assert InactiveRooms(s.rooms) == InactiveRooms(mid.rooms);
  }

  /** The whole effect of a check on the tables, and the messages it sends. */
  ghost predicate CheckDone(before: seq<Step>, s: State, t: State, log: seq<Step>, p: Report, config: Config) {
    var timeout := config.workerTimeoutSec * SECOND;
    var kept := InTime(s, p.sweep, timeout);
    && Replay(before) == Legal(s) && Replay(log) == Legal(t) && before <= log
    && CheckLogged(s, before, log, p, config)
    && t.lastChecked == p.start
    // silent workers and inactive rooms are gone, and the room counters are exact
    && t.workers.Keys == HeardFrom(s.workers, p.sweep, timeout).Keys
    && t.rooms.Keys == (set r | r in s.rooms && s.rooms[r].active)
    && RoomsExact(t)
    // every room had one turn, those with fewest tasks first
    && p.ceiling == Ceiling(HeardFrom(s.workers, p.sweep, timeout), |s.rooms|)
    && Distinct(p.order) && (forall r :: r in p.order <==> r in t.rooms)
    && TurnsFit(kept, t.tasks, p.order, p.turns, p.minimum)
    && TurnsFollow(log, p.turns, p.ceiling, p.minimum)
    // the workers offered, and what they got
    && ListFits(s, log, p, timeout)
    && (p.turns != [] ==> p.turns[0].offered == p.list)
    && (forall w :: w in t.workers ==> WithinQuota(config.maxNewTasksPerBunch, Gained(p.turns, w)))
    && (forall k :: k in t.tasks ==> k.room in t.rooms && (k in kept || GivenTo(p.turns, k)))
  }

  lemma {:induction false} TotalSame(a: map<WorkerId, Worker>, b: map<WorkerId, Worker>)
    requires a.Keys == b.Keys && forall w :: w in a ==> a[w].maxRooms == b[w].maxRooms
    ensures TotalMaxRooms(a) == TotalMaxRooms(b) && |a| == |b|
    decreases |a|
  {
    assert |a| == |a.Keys| && |b| == |b.Keys|;
    if a != map[] {
      var w :| w in a;
      TotalWithout(a, w);
      TotalWithout(b, w);
      SmallerMap(a, w);
      TotalSame(a - {w}, b - {w});
    }
  }

  /** The same workers with the same limits. */
  ghost predicate SameLimits(a: map<WorkerId, Worker>, b: map<WorkerId, Worker>) {
    a.Keys == b.Keys && forall w :: w in a ==> a[w].maxRooms == b[w].maxRooms
  }

  /** Neither recounting nor collecting changes what the ceiling is computed from. */
  lemma LimitsOfCheck(heard: map<WorkerId, Worker>, s1: State, workers: map<WorkerId, Worker>)
    requires SameDuties(heard, s1.workers)
    requires var counted := RecountWorkers(s1.tasks, s1.workers);
             workers.Keys == counted.Keys && forall w :: w in workers ==> workers[w].maxRooms == counted[w].maxRooms
    ensures SameLimits(heard, workers)
  {
    hide OfWorker;
  }

  lemma RoomsCounted(first: map<RoomId, Room>, s1: State)
    requires SameRooms(first, s1.rooms)
    ensures SameRooms(first, RecountRooms(s1.tasks, s1.rooms))
  {
    hide InRoom;
  }

  lemma SameRoomsMeans(a: map<RoomId, Room>, b: map<RoomId, Room>)
    requires SameRooms(a, b)
    ensures a.Keys == b.Keys && |a| == |b| && forall r :: r in a ==> a[r].active == b[r].active
  {
    assert |a| == |a.Keys| && |b| == |b.Keys|;
  }

  lemma CeilingSame(a: map<WorkerId, Worker>, b: map<WorkerId, Worker>, roomCount: nat)
    requires SameLimits(a, b)
    ensures Ceiling(a, roomCount) == Ceiling(b, roomCount)
  {
    TotalSame(a, b);
  }

  /** The two halves of a check make up its whole effect. */
  lemma CheckAssembled(before: seq<Step>, s: State, mid: State, t: State, log: seq<Step>, p: Report, config: Config)
    requires Replay(before) == Legal(s) && Replay(log) == Legal(t) && before <= log
    requires CheckLogged(s, before, log, p, config)
    requires t.lastChecked == p.start && RoomsExact(t)
    requires mid.tasks == InTime(s, p.sweep, config.workerTimeoutSec * SECOND)
    requires SameLimits(HeardFrom(s.workers, p.sweep, config.workerTimeoutSec * SECOND), mid.workers)
    requires SameRooms(s.rooms, mid.rooms)
    requires ListFits(s, log, p, config.workerTimeoutSec * SECOND)
    requires t.workers.Keys == mid.workers.Keys && p.ceiling == Ceiling(mid.workers, |mid.rooms|)
    requires t.rooms.Keys == (set r | r in mid.rooms && mid.rooms[r].active)
    requires Distinct(p.order) && forall r :: r in p.order <==> r in t.rooms
    requires TurnsFit(mid.tasks, t.tasks, p.order, p.turns, p.minimum)
    requires TurnsFollow(log, p.turns, p.ceiling, p.minimum)
    requires p.turns != [] ==> p.turns[0].offered == p.list
    requires forall w :: w in t.workers ==> WithinQuota(config.maxNewTasksPerBunch, Gained(p.turns, w))
    requires forall k :: k in t.tasks ==> k.room in t.rooms && (k in mid.tasks || GivenTo(p.turns, k))
    ensures CheckDone(before, s, t, log, p, config)
  {
    hide TurnsFollow, TurnsFit, InTime, HeardFrom, Ceiling, RoomsExact, GivenTo, Gained, Distinct, ListFits;
    hide CheckLogged, Replay;
    CeilingSame(HeardFrom(s.workers, p.sweep, config.workerTimeoutSec * SECOND), mid.workers, |mid.rooms|);
    SameRoomsMeans(s.rooms, mid.rooms);
  }

  /** Before the turns start each room's counter is its number of surviving tasks. */
  lemma CountsBeforeTurns(kept: map<Key, Time>, s4: State)
    requires RoomsExact(s4) && s4.tasks == map k | k in kept && k.room in s4.rooms :: kept[k]
    ensures forall r :: r in s4.rooms ==> s4.rooms[r].connections == |InRoom(kept.Keys, r)|
  {
    forall r | r in s4.rooms ensures InRoom(s4.tasks.Keys, r) == InRoom(kept.Keys, r) {
    }
  }

  /** The turns, read against the counters before and after them. */
  lemma TurnsReported(had: map<Key, Time>, s4: State, t: State, order: seq<RoomId>, unsorted: seq<RoomId>,
                      turns: seq<Turn>, minimum: int)
    requires forall r :: r in s4.rooms ==> s4.rooms[r].connections == |InRoom(had.Keys, r)|
    requires TurnsTaken(s4.rooms, t.rooms, order, turns) && RoomsExact(t) && FewestFirst(s4.rooms, order)
    requires (forall r :: r in order <==> r in unsorted) && IsMinimum(s4.rooms, unsorted, minimum)
    ensures TurnsFit(had, t.tasks, order, turns, minimum)
  {
    hide AfterTurn, InRoom;
    MinimumReported(s4.rooms, t.rooms, order, unsorted, turns, minimum);
    hide IsMinimum;
    forall i | 0 <= i < |turns|
      ensures turns[i].before == |InRoom(had.Keys, order[i])| && |InRoom(t.tasks.Keys, order[i])| == AfterTurn(turns[i])
    {
    }
  }

  lemma MinimumReported(before: map<RoomId, Room>, after: map<RoomId, Room>, order: seq<RoomId>, unsorted: seq<RoomId>,
                        turns: seq<Turn>, minimum: int)
    requires TurnsTaken(before, after, order, turns)
    requires (forall r :: r in order <==> r in unsorted) && IsMinimum(before, unsorted, minimum)
    ensures 0 <= minimum <= NO_MINIMUM
    ensures forall i :: 0 <= i < |turns| ==> minimum <= turns[i].before
    ensures minimum < NO_MINIMUM ==> exists i :: 0 <= i < |turns| && turns[i].before == minimum
  {
    hide AfterTurn;
    assert forall i :: 0 <= i < |turns| ==> order[i] in order;
    if minimum < NO_MINIMUM {
      var r :| r in unsorted && before[r].connections == minimum;
      var i :| 0 <= i < |order| && order[i] == r;
      assert turns[i].before == minimum;
    }
  }

  /** Only listed workers gained, and those were granted the quota. */
  lemma QuotasReported(workers: map<WorkerId, Worker>, list: seq<WorkerId>, turns: seq<Turn>, quota: int)
    requires forall w :: w in workers ==> WithinQuota(workers[w].remaining, Gained(turns, w))
    requires forall w :: Gained(turns, w) > 0 ==> w in list
    requires forall w :: w in list ==> w in workers && workers[w].remaining == quota
    ensures forall w :: w in workers ==> WithinQuota(quota, Gained(turns, w))
  {
  }

  lemma ExactSame(s: State, t: State)
    requires RoomsExact(s) && s.tasks == t.tasks && s.rooms == t.rooms
    ensures RoomsExact(t)
  {
  }

  lemma MinimumBounds(rooms: map<RoomId, Room>, list: seq<RoomId>, minimum: int)
    requires IsMinimum(rooms, list, minimum)
    ensures 0 <= minimum <= NO_MINIMUM
  {
  }

  lemma SameDutiesMeans(a: map<WorkerId, Worker>, b: map<WorkerId, Worker>)
    requires SameDuties(a, b)
    ensures a.Keys == b.Keys
    ensures forall w :: w in a ==> a[w].remaining == b[w].remaining && a[w].maxRooms == b[w].maxRooms
  {
  }

  /** Some turn gave the task to its worker. */
  ghost predicate GivenTo(turns: seq<Turn>, k: Key) {
    exists i :: 0 <= i < |turns| && turns[i].room == k.room && turns[i].gained == Some(k.worker)
  }

  lemma GivenToNext(turns: seq<Turn>, t: Turn)
    ensures forall k :: GivenTo(turns, k) ==> GivenTo(turns + [t], k)
    ensures t.gained.Some? ==> GivenTo(turns + [t], Key(t.gained.value, t.room))
  {
    var all := turns + [t];
    forall k | GivenTo(turns, k) ensures GivenTo(all, k) {
      var i :| 0 <= i < |turns| && turns[i].room == k.room && turns[i].gained == Some(k.worker);
      assert all[i] == turns[i];
    }
    assert all[|turns|] == t;
  }

  /** Every task gained was paid for out of what was left of a listed worker's quota. */
  ghost predicate GainsPaid(was: map<WorkerId, Worker>, workers: map<WorkerId, Worker>, list: seq<WorkerId>,
                            turns: seq<Turn>)
  {
    && was.Keys == workers.Keys
    && (forall w :: w in workers ==>
          && workers[w].remaining == was[w].remaining - Gained(turns, w)
          && WithinQuota(was[w].remaining, Gained(turns, w)))
    && forall w :: Gained(turns, w) > 0 ==> w in list
  }

  lemma GainsStart(workers: map<WorkerId, Worker>, list: seq<WorkerId>)
    ensures GainsPaid(workers, workers, list, []) && Trimmed([]) == 0
  {
  }

  lemma GainsPaidNext(was: map<WorkerId, Worker>, before: map<WorkerId, Worker>, after: map<WorkerId, Worker>,
                      list: seq<WorkerId>, turns: seq<Turn>, t: Turn)
    requires GainsPaid(was, before, list, turns) && before.Keys == after.Keys
    requires forall w :: w in after ==>
      after[w].remaining == before[w].remaining - (if t.gained == Some(w) then 1 else 0)
    requires t.gained.Some? ==>
      t.gained.value in list && t.gained.value in before && before[t.gained.value].remaining > 0
    ensures GainsPaid(was, after, list, turns + [t])
  {
    assert (turns + [t])[..|turns|] == turns;
  }

  lemma GainsMeans(was: map<WorkerId, Worker>, workers: map<WorkerId, Worker>, list: seq<WorkerId>, turns: seq<Turn>)
    requires GainsPaid(was, workers, list, turns)
    ensures forall w :: w in workers ==> WithinQuota(was[w].remaining, Gained(turns, w))
    ensures forall w :: Gained(turns, w) > 0 ==> w in list
  {
  }

  /** Tasks gained out of a quota. */
  predicate WithinQuota(quota: int, gained: nat) {
    gained <= Max(0, quota)
  }

  /** One turn for each listed room, each accounting for its change of task count. */
  ghost predicate TurnsTaken(before: map<RoomId, Room>, after: map<RoomId, Room>, order: seq<RoomId>,
                             turns: seq<Turn>)
  {
    && |turns| == |order|
    && forall i :: 0 <= i < |order| ==>
      && order[i] in before && order[i] in after
      && turns[i].room == order[i] && turns[i].before == before[order[i]].connections
      && after[order[i]].connections == AfterTurn(turns[i])
  }

  lemma SameRoomsSelf(rooms: map<RoomId, Room>, order: seq<RoomId>, turns: seq<Turn>)
    requires order == [] && turns == []
    ensures SameRooms(rooms, rooms) && TurnsTaken(rooms, rooms, order, turns)
  {
  }

  lemma NoTurnsYet(log: seq<Step>, ceiling: int, minimum: int, list: seq<WorkerId>)
    ensures TurnsFollow(log, [], ceiling, minimum) && OfferedAfter(log, [], ceiling, list, list)
  {
  }

  lemma OfferedNextMembers(s: State, t: Turn, ceiling: int)
    ensures forall w :: w in OfferedNext(s, t, ceiling) ==> w in t.offered
  {
    if t.before < ceiling {
      var n := FirstFit(s, t.room, t.offered);
      EligibleOfMembers(s, t.offered[..n]);
    }
  }

  lemma TurnsTakenNext(first: map<RoomId, Room>, before: map<RoomId, Room>, after: map<RoomId, Room>,
                       order: seq<RoomId>, i: nat, turns: seq<Turn>, t: Turn)
    requires i < |order| && Distinct(order) && TurnsTaken(first, before, order[..i], turns)
    requires order[i] in first && SameRooms(first, before) && SameRooms(before, after)
    requires forall r :: r in before && r != order[i] ==> after[r] == before[r]
    requires t.room == order[i] && t.before == first[order[i]].connections
    requires after[order[i]].connections == AfterTurn(t)
    ensures TurnsTaken(first, after, order[..i + 1], turns + [t])
  {
    hide AfterTurn;
  }

  /** The rooms not in todo have been looked at: the inactive ones are gone with their
      tasks, the others are listed. */
  ghost predicate PurgedSoFar(was: map<RoomId, Room>, rooms: map<RoomId, Room>,
                              had: map<Key, Time>, tasks: map<Key, Time>,
                              todo: set<RoomId>, pending: seq<RoomId>)
  {
    && todo <= rooms.Keys
    && rooms == (map r | r in was && (r in todo || was[r].active) :: was[r])
    && tasks == (map k | k in had && k.room in rooms :: had[k])
    && Distinct(pending) && forall r :: r in pending <==> r in rooms && r !in todo
  }

  /** The workers not in todo have been looked at: the silent ones are gone with their
      tasks. */
  ghost predicate HeardSoFar(was: map<WorkerId, Worker>, workers: map<WorkerId, Worker>,
                             had: map<Key, Time>, tasks: map<Key, Time>,
                             todo: set<WorkerId>, now: Time, timeout: Time)
  {
    && todo <= workers.Keys
    && workers == (map w | w in was && (w in todo || now - was[w].lastReceived <= timeout) :: was[w])
    && tasks == (map k | k in had && k.worker in workers :: had[k])
  }

  lemma HearingStarts(workers: map<WorkerId, Worker>, tasks: map<Key, Time>, now: Time, timeout: Time)
    requires forall k :: k in tasks ==> k.worker in workers
    ensures HeardSoFar(workers, workers, tasks, tasks, workers.Keys, now, timeout)
  {
  }

  lemma HearingStep(was: map<WorkerId, Worker>, workers: map<WorkerId, Worker>,
                    had: map<Key, Time>, tasks: map<Key, Time>,
                    todo: set<WorkerId>, now: Time, timeout: Time, w: WorkerId)
    requires HeardSoFar(was, workers, had, tasks, todo, now, timeout) && w in todo
    ensures w in workers && w in was
    ensures now - workers[w].lastReceived > timeout ==>
      HeardSoFar(was, workers - {w}, had, WithoutWorker(tasks, w), todo - {w}, now, timeout)
    ensures now - workers[w].lastReceived <= timeout ==>
      HeardSoFar(was, workers, had, tasks, todo - {w}, now, timeout)
  {
  }

  lemma HearingEnds(was: map<WorkerId, Worker>, workers: map<WorkerId, Worker>,
                    had: map<Key, Time>, tasks: map<Key, Time>, now: Time, timeout: Time)
    requires HeardSoFar(was, workers, had, tasks, {}, now, timeout)
    ensures workers == map w | w in was && now - was[w].lastReceived <= timeout :: was[w]
    ensures tasks == map k | k in had && k.worker in workers :: had[k]
  {
  }

  /** Of one room's tasks only those in todo are left; all others are untouched. */
  ghost predicate OnlyLeft(had: map<Key, Time>, tasks: map<Key, Time>, r: RoomId, todo: set<Key>) {
    && tasks == (map k | k in had && (k.room != r || k in todo) :: had[k])
    && todo <= tasks.Keys && forall k :: k in todo ==> k.room == r
  }

  lemma OnlyLeftStarts(tasks: map<Key, Time>, r: RoomId)
    ensures OnlyLeft(tasks, tasks, r, InRoom(tasks.Keys, r))
  {
  }

  lemma OnlyLeftNext(had: map<Key, Time>, tasks: map<Key, Time>, r: RoomId, todo: set<Key>, k: Key)
    requires OnlyLeft(had, tasks, r, todo) && k in todo
    ensures k in tasks && k.room == r && OnlyLeft(had, tasks - {k}, r, todo - {k})
  {
  }

  lemma OnlyLeftEnds(had: map<Key, Time>, tasks: map<Key, Time>, r: RoomId)
    requires OnlyLeft(had, tasks, r, {})
    ensures tasks == map k | k in had && k.room != r :: had[k]
  {
  }

  lemma SameRoomsTwice(a: map<RoomId, Room>, b: map<RoomId, Room>, c: map<RoomId, Room>)
    requires SameRooms(a, b) && SameRooms(b, c)
    ensures SameRooms(a, c) && a.Keys == b.Keys == c.Keys
  {
  }

  lemma PurgeStarts(rooms: map<RoomId, Room>, tasks: map<Key, Time>)
    requires forall k :: k in tasks ==> k.room in rooms
    ensures PurgedSoFar(rooms, rooms, tasks, tasks, rooms.Keys, [])
  {
  }

  lemma PurgeStep(was: map<RoomId, Room>, rooms: map<RoomId, Room>, had: map<Key, Time>, tasks: map<Key, Time>,
                  todo: set<RoomId>, pending: seq<RoomId>, r: RoomId)
    requires PurgedSoFar(was, rooms, had, tasks, todo, pending) && r in todo
    ensures r in rooms && r in was && rooms[r] == was[r]
    ensures rooms[r].active ==> PurgedSoFar(was, rooms, had, tasks, todo - {r}, pending + [r])
    ensures !rooms[r].active ==>
      PurgedSoFar(was, rooms - {r}, had, map k | k in tasks && k.room != r :: tasks[k], todo - {r}, pending)
  {
  }

  lemma PurgeEnds(was: map<RoomId, Room>, rooms: map<RoomId, Room>, had: map<Key, Time>, tasks: map<Key, Time>,
                  pending: seq<RoomId>)
    requires PurgedSoFar(was, rooms, had, tasks, {}, pending)
    ensures rooms == map r | r in was && was[r].active :: was[r]
    ensures tasks == map k | k in had && k.room in rooms :: had[k]
    ensures Distinct(pending) && forall r :: r in pending <==> r in rooms
    ensures forall r :: r in rooms ==> r in was && rooms[r] == was[r]
  {
  }

  /** The workers not in todo have been looked at: those that can be collected are listed
      and prepared. */
  ghost predicate CollectedSoFar(s: State, workers: map<WorkerId, Worker>, quota: int, todo: set<WorkerId>,
                                 list: seq<WorkerId>)
  {
    && todo <= workers.Keys == s.workers.Keys
    && (forall w :: w in workers ==>
          workers[w] == if w !in todo && CanCollect(s, w) then s.workers[w].(punished := false, remaining := quota)
                        else s.workers[w])
    && Distinct(list) && forall w :: w in list <==> w !in todo && CanCollect(s, w)
  }

  lemma CollectStarts(s: State, quota: int)
    ensures CollectedSoFar(s, s.workers, quota, s.workers.Keys, [])
  {
  }

  lemma CollectStep(s: State, workers: map<WorkerId, Worker>, quota: int, todo: set<WorkerId>, list: seq<WorkerId>,
                    w: WorkerId)
    requires CollectedSoFar(s, workers, quota, todo, list) && w in todo
    ensures w in workers && workers[w] == s.workers[w]
    ensures CanCollect(s, w) ==>
      CollectedSoFar(s, workers[w := workers[w].(punished := false, remaining := quota)], quota, todo - {w}, list + [w])
    ensures !CanCollect(s, w) ==> CollectedSoFar(s, workers, quota, todo - {w}, list)
  {
  }

  lemma CollectEnds(s: State, workers: map<WorkerId, Worker>, quota: int, list: seq<WorkerId>)
    requires CollectedSoFar(s, workers, quota, {}, list)
    ensures workers.Keys == s.workers.Keys
    ensures forall w :: w in workers ==>
      workers[w] == if CanCollect(s, w) then s.workers[w].(punished := false, remaining := quota) else s.workers[w]
    ensures Distinct(list) && forall w :: w in list <==> CanCollect(s, w)
  {
  }

  /** The least task count of the listed rooms, or the constant that stands for none. */
  ghost predicate IsMinimum(rooms: map<RoomId, Room>, list: seq<RoomId>, minimum: int) {
    && 0 <= minimum <= NO_MINIMUM
    && (forall r :: r in list ==> r in rooms && minimum <= rooms[r].connections)
    && (minimum < NO_MINIMUM ==> exists r :: r in list && rooms[r].connections == minimum)
  }

  lemma NoMinimumYet(rooms: map<RoomId, Room>)
    ensures IsMinimum(rooms, [], NO_MINIMUM)
  {
  }

  lemma MinimumNext(rooms: map<RoomId, Room>, list: seq<RoomId>, minimum: int, r: RoomId)
    requires IsMinimum(rooms, list, minimum) && r in rooms && 0 <= rooms[r].connections
    ensures IsMinimum(rooms, list + [r], Min(minimum, rooms[r].connections))
  {
    assert r in list + [r];
    if minimum < NO_MINIMUM {
      var q :| q in list && rooms[q].connections == minimum;
      assert q in list + [r];
    }
  }

  lemma MinimumOfSame(a: map<RoomId, Room>, b: map<RoomId, Room>, list: seq<RoomId>, minimum: int)
    requires IsMinimum(a, list, minimum) && forall r :: r in list ==> r in a && r in b && a[r] == b[r]
    ensures IsMinimum(b, list, minimum)
  {
  }

  lemma VictimsCounted(s: State, r: RoomId)
    requires RoomsExact(s) && r in s.rooms
    ensures |InRoom(s.tasks.Keys, r)| == s.rooms[r].connections
    ensures forall k :: k in InRoom(s.tasks.Keys, r) <==> k in s.tasks && k.room == r
  {
  }

  lemma RemovedOneOfRoom(s: State, k: Key)
    requires k in s.tasks && k.room in s.rooms
    ensures forall p {:trigger RemoveTask(s, k, p)} ::
      k.room in RemoveTask(s, k, p).rooms
      && RemoveTask(s, k, p).rooms[k.room].connections == s.rooms[k.room].connections - 1
  {
  }

  lemma CountersInOrder(s: State)
    requires Inv(s)
    ensures forall r :: r in s.rooms ==> 0 <= s.rooms[r].connections
    ensures forall k :: k in s.tasks ==> k.worker in s.workers && k.room in s.rooms
  {
  }

  lemma SmallerMap(m: map<WorkerId, Worker>, w: WorkerId)
    requires w in m
    ensures |m - {w}| < |m|
  {
    assert (m - {w}).Keys == m.Keys - {w};
  }

  lemma RemovedTaskAnyPenalty(s: State, k: Key)
    requires k in s.tasks
    ensures forall p {:trigger RemoveTask(s, k, p)} ::
      var t := RemoveTask(s, k, p);
      && t.tasks == s.tasks - {k} && t.lastChecked == s.lastChecked && t.available == s.available
      && SameDuties(s.workers, t.workers) && SameRooms(s.rooms, t.rooms)
      && (forall r :: r in s.rooms && r != k.room ==> t.rooms[r] == s.rooms[r])
  {
    forall p
      ensures var t := RemoveTask(s, k, p);
              && t.tasks == s.tasks - {k} && t.lastChecked == s.lastChecked && t.available == s.available
              && SameDuties(s.workers, t.workers) && SameRooms(s.rooms, t.rooms)
              && (forall r :: r in s.rooms && r != k.room ==> t.rooms[r] == s.rooms[r])
    {
      RemovedTask(s, k, p);
    }
  }
}
