/** What a check decides, in terms of the tables it started from, the configuration and the
    clock: who is deleted, which tasks survive, whom the list offers and in which order, who
    gains and which rooms are cut.  Times are in milliseconds. */
module SchedulerDecisions {
  import opened Prelude
  import opened SchedulerModel
  import opened SchedulerCheck
  import opened SchedulerTables
  import opened SchedulerTrail
  import opened SchedulerOutcome
  import SchedulerHistory
  import SchedulerRuns

  // ----- the timeouts -----

  predicate Silent(worker: Worker, p: Report, config: Config) {
    p.sweep - worker.lastReceived > config.workerTimeoutSec * 1000
  }

  /** The workers that were heard from. */
  function NotSilent(s: State, p: Report, config: Config): map<WorkerId, Worker> {
    map w | w in s.workers && !Silent(s.workers[w], p, config) :: s.workers[w]
  }

  /** A task survives the timeouts if its worker was heard from and it had data in time. */
  predicate Survives(s: State, k: Key, p: Report, config: Config) {
    && k in s.tasks && p.sweep - s.tasks[k] < config.workerTimeoutSec * 1000
    && k.worker in s.workers && !Silent(s.workers[k.worker], p, config)
  }

  /** Some turn gave the task to its worker. */
  predicate Gains(turns: seq<Turn>, k: Key) {
    exists i :: 0 <= i < |turns| && turns[i].room == k.room && turns[i].gained == Some(k.worker)
  }

  /** After a check exactly the workers that were not silent are left, exactly the active
      rooms, and of the tasks none but survivors and those gained in it. */
  lemma SurvivorsExactly(before: seq<Step>, s: State, t: State, log: seq<Step>, p: Report, config: Config)
    requires CheckDone(before, s, t, log, p, config)
    ensures t.lastChecked == p.start
    ensures p.ceiling == Ceiling(NotSilent(s, p, config), |s.rooms|)
    ensures forall w :: w in t.workers <==> w in s.workers && !Silent(s.workers[w], p, config)
    ensures forall r :: r in t.rooms <==> r in s.rooms && s.rooms[r].active
    ensures forall k :: k in InTime(s, p.sweep, config.workerTimeoutSec * SECOND) <==> Survives(s, k, p, config)
    ensures forall k :: k in t.tasks ==> k.room in t.rooms && (Survives(s, k, p, config) || Gains(p.turns, k))
    ensures forall r :: r in t.rooms ==> t.rooms[r].connections == |set k | k in t.tasks && k.room == r|
  {
    hide CheckLogged, Replay, TurnsFit, TurnsFollow, ListFits, Distinct, Gained, Ceiling;
    assert HeardFrom(s.workers, p.sweep, config.workerTimeoutSec * SECOND) == NotSilent(s, p, config);
    forall r | r in t.rooms ensures t.rooms[r].connections == |set k | k in t.tasks && k.room == r| {
      assert InRoom(t.tasks.Keys, r) == set k | k in t.tasks && k.room == r;
    }
  }

  /** A silent worker is reset, deleted and disconnected, and nobody else is. */
  lemma SilentWorkersAreDeleted(before: seq<Step>, s: State, t: State, log: seq<Step>, p: Report, config: Config,
                                w: WorkerId)
    requires CheckDone(before, s, t, log, p, config)
    ensures w in s.workers && Silent(s.workers[w], p, config) <==>
      exists m :: |before| < m && m + 2 < |log| && log[m].Reset? && log[m].worker == w
                  && log[m + 1] == Erase(w) && log[m + 2] == Disconnect(w)
    ensures (exists m :: |before| <= m < |log| && log[m] == Disconnect(w)) ==>
      w in s.workers && Silent(s.workers[w], p, config)
  {
    hide CheckDone, CheckLogged, StepOfCheck, TurnsLogged, Prepared, Deletions, Silent, Replay;
    LoggedInCheck(before, s, t, log, p, config);
    LoggedPhases(s, before, log, p, config);
    GoneExactly(s, before, log, p, config, w);
    if w in p.gone {
      var m := DeletionOf(log[..p.swept], |before| + 1, p.gone, w);
      assert log[m] == log[..p.swept][m] && log[m + 1] == log[..p.swept][m + 1] && log[m + 2] == log[..p.swept][m + 2];
    }
    forall m | |before| <= m < |log| && (log[m].Reset? || log[m].Disconnect?) && log[m].worker == w
      ensures w in p.gone
    {
      StepsOfCheck(s, before, log, p, config, m);
      OnlyGone(log[m], m, s, before, p);
    }
  }

  lemma OnlyGone(step: Step, m: nat, s: State, before: seq<Step>, p: Report)
    requires StepOfCheck(step, m, s, before, p) && (step.Reset? || step.Disconnect?)
    ensures step.worker in p.gone
  {
  }

  lemma GoneExactly(s: State, before: seq<Step>, log: seq<Step>, p: Report, config: Config, w: WorkerId)
    requires CheckLogged(s, before, log, p, config)
    ensures p.swept <= |log| && Deletions(log[..p.swept], |before| + 1, p.gone)
    ensures w in p.gone <==> w in s.workers && Silent(s.workers[w], p, config)
  {
    hide TurnsLogged, OnlyPurges, OnlyPenalties, Collects, Deletions;
    assert log[..p.listed][..p.swept] == log[..p.swept];
  }

  /** Every penalty of a check is of the configured number of minutes. */
  lemma PenaltiesAsConfigured(before: seq<Step>, s: State, t: State, log: seq<Step>, p: Report, config: Config, m: nat)
    requires CheckDone(before, s, t, log, p, config) && |before| <= m < |log|
    requires log[m].Unassign? && log[m].penalty.Penalty?
    ensures log[m].penalty.length == config.workerPenaltyMin * 60000
  {
    hide CheckDone, StepOfCheck, TurnsLogged, Replay, Deletions, Collects;
    LoggedInCheck(before, s, t, log, p, config);
    LoggedPhases(s, before, log, p, config);
    if m < p.listed {
      StepsOfFirstHalf(s, before, log[..p.listed], p, config, m);
      PenalisedInSweep(log[m], m, s, before, p);
      assert log[m] == log[..p.listed][..p.at - 1][m];
    } else if m < p.purged {
      assert log[m] == log[..p.purged][m];
    } else {
      TurnSteps(log, p.purged, p.turns);
    }
  }

  lemma PenalisedInSweep(step: Step, m: nat, s: State, before: seq<Step>, p: Report)
    requires StepOfCheck(step, m, s, before, p) && step.Unassign? && |before| < p.swept < p.at && m < p.listed
    ensures p.swept <= m < p.at - 1
  {
  }

  // ----- the list -----

  /** The tasks of w that survive the timeouts. */
  ghost function Surviving(s: State, w: WorkerId, p: Report, config: Config): set<Key> {
    set k | k in s.tasks && k.worker == w && Survives(s, k, p, config)
  }

  /** The room a worker has when the list is made. */
  ghost function Spare(s: State, w: WorkerId, p: Report, config: Config): int
    requires w in s.workers
  {
    s.workers[w].maxRooms - |Surviving(s, w, p, config)|
  }

  lemma ListState(before: seq<Step>, s: State, t: State, log: seq<Step>, p: Report, config: Config)
    returns (mid: State)
    requires CheckDone(before, s, t, log, p, config)
    ensures p.at <= |log| && Replay(log[..p.at]) == Legal(mid) && Inv(mid)
    ensures mid.tasks == InTime(s, p.sweep, config.workerTimeoutSec * SECOND) && mid.lastChecked == p.start
    ensures SameLimits(HeardFrom(s.workers, p.sweep, config.workerTimeoutSec * SECOND), mid.workers)
    ensures Spared(s.tasks, s.workers, mid.workers, p.sweep, config.workerTimeoutSec * SECOND)
    ensures Distinct(p.list) && (forall w :: w in p.list <==> CanCollect(mid, w)) && FreestFirst(mid.workers, p.list)
  {
    hide CheckLogged, TurnsFit, TurnsFollow, InTime, HeardFrom, RoomsExact, Replay, Inv, Spared, FreestFirst;
    hide SameLimits, CanCollect, Distinct;
    mid := Replay(log[..p.at]).state;
    EveryRunKeepsInv(log[..p.at]);
  }

  lemma SurvivingCounted(s: State, mid: State, w: WorkerId, p: Report, config: Config)
    requires mid.tasks == InTime(s, p.sweep, config.workerTimeoutSec * SECOND) && Inv(mid) && w in mid.workers
    ensures mid.workers[w].connections == |Surviving(s, w, p, config)|
  {
    assert WorkerOk(mid.workers[w], |OfWorker(mid.tasks.Keys, w)|);
    assert OfWorker(mid.tasks.Keys, w) == Surviving(s, w, p, config);
  }

  /** Exactly the workers that were heard from, hold fewer surviving tasks than their limit
      and may have new ones are listed.  A worker whose tasks all had data in time may have
      new ones as the table said; of one that lost a silent task the last penalty decides. */
  lemma ListedExactly(before: seq<Step>, s: State, t: State, log: seq<Step>, p: Report, config: Config, w: WorkerId)
    returns (allowAfter: Time)
    requires CheckDone(before, s, t, log, p, config) && w in s.workers
    ensures w in p.list <==>
      !Silent(s.workers[w], p, config) && Spare(s, w, p, config) > 0 && allowAfter < p.start
    ensures (forall k :: k in s.tasks && k.worker == w ==> p.sweep - s.tasks[k] < config.workerTimeoutSec * 1000) ==>
      allowAfter == s.workers[w].allowAfter
    ensures !Silent(s.workers[w], p, config)
            && (exists k :: k in s.tasks && k.worker == w && p.sweep - s.tasks[k] >= config.workerTimeoutSec * 1000) ==>
      exists m :: |before| <= m < p.at && log[m].Unassign? && log[m].key.worker == w
                  && log[m].penalty.Penalty? && allowAfter == log[m].penalty.at + config.workerPenaltyMin * 60000
  {
    hide CheckDone, Replay, Inv, FreestFirst, InTime, Distinct, HeardFrom, SameLimits, Spared, Silent, CanCollect;
    hide Surviving;
    var mid := ListState(before, s, t, log, p, config);
    allowAfter := s.workers[w].allowAfter;
    WorkersOfList(s, mid, p, config, w);
    if w in mid.workers {
      SurvivingCounted(s, mid, w, p, config);
      allowAfter := mid.workers[w].allowAfter;
      if k :| k in s.tasks && k.worker == w && p.sweep - s.tasks[k] >= config.workerTimeoutSec * 1000 {
        var m := LastPenaltyOf(before, s, t, log, p, config, k);
      }
    }
    CollectedWhen(mid, w);
  }

  lemma CollectedWhen(mid: State, w: WorkerId)
    ensures CanCollect(mid, w) <==>
      && w in mid.workers && mid.workers[w].connections < mid.workers[w].maxRooms
      && mid.workers[w].allowAfter < mid.lastChecked
  {
  }

  lemma WorkersOfList(s: State, mid: State, p: Report, config: Config, w: WorkerId)
    requires w in s.workers
    requires SameLimits(HeardFrom(s.workers, p.sweep, config.workerTimeoutSec * SECOND), mid.workers)
    requires Spared(s.tasks, s.workers, mid.workers, p.sweep, config.workerTimeoutSec * SECOND)
    ensures w in mid.workers <==> !Silent(s.workers[w], p, config)
    ensures w in mid.workers ==> mid.workers[w].maxRooms == s.workers[w].maxRooms
    ensures w in mid.workers
            && (forall k :: k in s.tasks && k.worker == w ==> p.sweep - s.tasks[k] < config.workerTimeoutSec * 1000) ==>
      mid.workers[w].allowAfter == s.workers[w].allowAfter
  {
  }

  /** The last penalty before the recount of a worker that lost a silent task. */
  lemma LastPenaltyOf(before: seq<Step>, s: State, t: State, log: seq<Step>, p: Report, config: Config, k: Key)
    returns (m: nat)
    requires CheckDone(before, s, t, log, p, config) && k in s.tasks && k.worker in s.workers
    requires !Silent(s.workers[k.worker], p, config) && p.sweep - s.tasks[k] >= config.workerTimeoutSec * 1000
    ensures |before| <= m < p.at <= |log| && log[m].Unassign? && log[m].key.worker == k.worker
    ensures log[m].penalty.Penalty?
    ensures Replay(log[..p.at]).Legal? && k.worker in Replay(log[..p.at]).state.workers
    ensures Replay(log[..p.at]).state.workers[k.worker].allowAfter
         == log[m].penalty.at + config.workerPenaltyMin * 60000
  {
    hide CheckDone, CheckLogged, InTime, Replay, Silent, Inv, SchedulerRuns.At, SchedulerHistory.SetsAllowed;
    hide SchedulerRuns.Ends;
    var lost := SilentTaskLost(before, s, t, log, p, config, k);
    forall n | |before| <= n < p.at
      ensures SchedulerHistory.SetsAllowed(log[n], k.worker) ==> SchedulerRuns.Penalises(log[n], k.worker)
      ensures SchedulerRuns.Ends(log[n], k) ==> SchedulerRuns.Penalises(log[n], k.worker)
      ensures SchedulerRuns.Penalises(log[n], k.worker) ==> log[n].Unassign?
    {
      SweepStep(before, s, t, log, p, config, k, n);
    }
    m := LastPenalising(log, lost, p.at, k.worker);
    PenaltySets(log[m], k.worker);
    SchedulerHistory.AllowedSince(log, m, p.at, k.worker);
    AtIs(log, p.at);
    PenaltiesAsConfigured(before, s, t, log, p, config, m);
  }

  lemma AtIs(log: seq<Step>, i: nat)
    requires Replay(log).Legal? && i <= |log|
    ensures Replay(log[..i]).Legal? && SchedulerRuns.At(log, i) == Replay(log[..i]).state
  {
    ReplayPrefix(log, i);
  }

  lemma PenaltySets(step: Step, w: WorkerId)
    requires SchedulerRuns.Penalises(step, w)
    ensures SchedulerHistory.SetsAllowed(step, w) && !step.Erase? && !step.Connect? && !step.Reset?
  {
  }

  /** A silent task of a worker that is not silent is lost before the recount. */
  lemma SilentTaskLost(before: seq<Step>, s: State, t: State, log: seq<Step>, p: Report, config: Config, k: Key)
    returns (m: nat)
    requires CheckDone(before, s, t, log, p, config) && k in s.tasks
    requires p.sweep - s.tasks[k] >= config.workerTimeoutSec * 1000
    ensures Replay(log).Legal? && |before| <= m < p.at <= |log| && SchedulerRuns.Ends(log[m], k)
  {
    hide CheckDone, CheckLogged, InTime, Replay, Inv, HeardFrom, Spared, FreestFirst, SameLimits, Distinct, CanCollect;
    hide SchedulerRuns.Ends;
    var mid := ListState(before, s, t, log, p, config);
    NotInTime(s, k, p, config);
    LegalCheck(before, s, t, log, p, config);
    LoggedPhases(s, before, log, p, config);
    m := SchedulerRuns.TaskLossIsLogged(log, |before|, p.at, k);
  }

  /** Before the list is made the only steps that matter to a worker that is not silent are
      penalties. */
  lemma SweepStep(before: seq<Step>, s: State, t: State, log: seq<Step>, p: Report, config: Config, k: Key, n: nat)
    requires CheckDone(before, s, t, log, p, config) && k.worker in s.workers
    requires !Silent(s.workers[k.worker], p, config) && |before| <= n < p.at <= |log|
    ensures SchedulerHistory.SetsAllowed(log[n], k.worker) ==> SchedulerRuns.Penalises(log[n], k.worker)
    ensures SchedulerRuns.Ends(log[n], k) ==> SchedulerRuns.Penalises(log[n], k.worker)
    ensures SchedulerRuns.Penalises(log[n], k.worker) ==> log[n].Unassign?
  {
    hide CheckDone, CheckLogged, StepOfCheck, TurnsLogged, Deletions, Silent;
    LoggedInCheck(before, s, t, log, p, config);
    LoggedPhases(s, before, log, p, config);
    GoneExactly(s, before, log, p, config, k.worker);
    StepsOfCheck(s, before, log, p, config, n);
    PenalisesOnly(log[n], n, s, before, p, k);
  }

  lemma LegalCheck(before: seq<Step>, s: State, t: State, log: seq<Step>, p: Report, config: Config)
    requires CheckDone(before, s, t, log, p, config)
    ensures Replay(log).Legal? && CheckLogged(s, before, log, p, config) && before <= log
    ensures Replay(log[..|before|]) == Legal(s)
  {
    hide CheckLogged, Replay, TurnsFit, TurnsFollow, ListFits, InTime, HeardFrom, RoomsExact;
    assert log[..|before|] == before;
  }

  lemma NotInTime(s: State, k: Key, p: Report, config: Config)
    requires k in s.tasks && p.sweep - s.tasks[k] >= config.workerTimeoutSec * 1000
    ensures k !in InTime(s, p.sweep, config.workerTimeoutSec * SECOND)
  {
  }

  lemma PenalisesOnly(step: Step, n: nat, s: State, before: seq<Step>, p: Report, k: Key)
    requires StepOfCheck(step, n, s, before, p) && |before| < p.swept < p.at && n < p.at && k.worker !in p.gone
    ensures SchedulerHistory.SetsAllowed(step, k.worker) ==> SchedulerRuns.Penalises(step, k.worker)
    ensures SchedulerRuns.Ends(step, k) ==> SchedulerRuns.Penalises(step, k.worker)
    ensures SchedulerRuns.Penalises(step, k.worker) ==> step.Unassign?
  {
  }

  lemma {:induction false} LastPenalising(log: seq<Step>, i: nat, j: nat, w: WorkerId) returns (m: nat)
    requires i < j <= |log| && SchedulerRuns.Penalises(log[i], w)
    ensures i <= m < j && SchedulerRuns.Penalises(log[m], w)
    ensures forall n :: m < n < j ==> !SchedulerRuns.Penalises(log[n], w)
    decreases j
  {
    if SchedulerRuns.Penalises(log[j - 1], w) {
      m := j - 1;
    } else {
      m := LastPenalising(log, i, j - 1, w);
    }
  }

  /** The list has no worker twice and begins with those that have most room left. */
  lemma ListedInOrder(before: seq<Step>, s: State, t: State, log: seq<Step>, p: Report, config: Config, x: nat, y: nat)
    requires CheckDone(before, s, t, log, p, config) && x < y < |p.list|
    ensures p.list[x] != p.list[y] && p.list[x] in s.workers && p.list[y] in s.workers
    ensures Spare(s, p.list[x], p, config) >= Spare(s, p.list[y], p, config)
  {
    var mid := ListState(before, s, t, log, p, config);
    hide CheckDone, Replay, Inv, InTime;
    assert p.list[x] in p.list && p.list[y] in p.list;
    SurvivingCounted(s, mid, p.list[x], p, config);
    SurvivingCounted(s, mid, p.list[y], p, config);
  }

  // ----- the turns -----

  /** The rooms take their turns with the fewest tasks first, each with as many tasks as
      survived in it, and the least of these is the minimum. */
  lemma TurnsInOrder(before: seq<Step>, s: State, t: State, log: seq<Step>, p: Report, config: Config, i: nat, j: nat)
    requires CheckDone(before, s, t, log, p, config) && i <= j < |p.turns|
    ensures p.turns[i].before <= p.turns[j].before && (i < j ==> p.turns[i].room != p.turns[j].room)
    ensures p.turns[j].before == |set k | k in s.tasks && k.room == p.turns[j].room && Survives(s, k, p, config)|
    ensures p.minimum == Min(p.turns[0].before, 1073741823)
  {
    hide CheckLogged, Replay, TurnsFollow, ListFits, RoomsExact, Gained, GivenTo;
    var kept := InTime(s, p.sweep, config.workerTimeoutSec * SECOND);
    assert InRoom(kept.Keys, p.order[j]) == set k | k in s.tasks && k.room == p.order[j] && Survives(s, k, p, config);
    if p.minimum < NO_MINIMUM {
      var n :| 0 <= n < |p.turns| && p.turns[n].before == p.minimum;
      assert n == 0 || p.turns[0].before <= p.turns[n].before;
    }
  }

  /** A room that gained nothing, although its turn was not cut short by a last worker that
      had to be erased, is cut down to the ceiling and to one more than the least, as far as
      ten cuts in all allow; any other room that gained nothing is left as it is. */
  lemma UnevenRoomsAreCut(before: seq<Step>, s: State, t: State, log: seq<Step>, p: Report, config: Config, i: nat)
    requires CheckDone(before, s, t, log, p, config) && i < |p.turns| && p.turns[i].gained == None
    ensures var turn := p.turns[i];
            var has := |InRoom(t.tasks.Keys, turn.room)|;
            var even := Min(turn.before, Min(p.ceiling, p.minimum + 1));
            if turn.before >= p.ceiling || turn.offered == []
               || Eligible(StateAt(log, turn), turn.offered[|turn.offered| - 1]) then
              && has == Max(turn.before - (10 - Trimmed(p.turns[..i])), even)
              && (Trimmed(p.turns) < 10 ==> has == even)
            else has == turn.before
  {
    hide CheckDone, TurnsFollow, StateAt, TurnDecides, InTime, InRoom, AfterTurn, Eligible;
    TurnCounts(before, s, t, log, p, config, i);
    TurnsOfCheck(before, s, t, log, p, config);
    TurnDecided(log, p.turns, p.ceiling, p.minimum, i);
    TurnTrimsExactly(StateAt(log, p.turns[i]), p.turns[i], p.ceiling, p.minimum, 10 - Trimmed(p.turns[..i]));
    TrimmedPrefix(p.turns, i);
    CutsLeave(p.turns[i]);
  }

  lemma CutsLeave(t: Turn)
    requires t.gained == None
    ensures AfterTurn(t) == t.before - t.trimmed
  {
  }

  /** No worker is given more tasks than the configured number in one check. */
  lemma QuotaKept(before: seq<Step>, s: State, t: State, log: seq<Step>, p: Report, config: Config, w: WorkerId)
    requires CheckDone(before, s, t, log, p, config)
    ensures Gained(p.turns, w) <= Max(0, config.maxNewTasksPerBunch)
  {
    hide CheckLogged, Replay, TurnsFit, ListFits, RoomsExact, InTime, HeardFrom;
    if w !in t.workers {
      NoGainForStrangers(before, s, t, log, p, config, w, |p.turns|);
      assert p.turns[..|p.turns|] == p.turns;
    }
  }

  /** A worker that is not in the table gains nothing. */
  lemma {:induction false} NoGainForStrangers(before: seq<Step>, s: State, t: State, log: seq<Step>, p: Report,
                                              config: Config, w: WorkerId, n: nat)
    requires CheckDone(before, s, t, log, p, config) && n <= |p.turns| && w !in t.workers
    ensures Gained(p.turns[..n], w) == 0
    decreases n
  {
    hide CheckDone;
    if n > 0 {
      NoGainForStrangers(before, s, t, log, p, config, w, n - 1);
      assert p.turns[..n][..n - 1] == p.turns[..n - 1];
      if p.turns[n - 1].gained == Some(w) {
        FirstWorkerGains(before, s, t, log, p, config, n - 1, w);
        ListedIsKnown(before, s, t, log, p, config, w);
      }
    }
  }

  lemma ListedIsKnown(before: seq<Step>, s: State, t: State, log: seq<Step>, p: Report, config: Config, w: WorkerId)
    requires CheckDone(before, s, t, log, p, config) && w in p.list
    ensures w in t.workers
  {
    hide CheckLogged, Replay, TurnsFit, TurnsFollow, RoomsExact, InTime, HeardFrom, Gained, Spared, FreestFirst;
  }

  /** A room gains a worker from the front of the list: the room was below the ceiling, has
      one task more, the worker was sent the assignment, and every worker before it on the
      check's list held the room or was exhausted, at that turn or when it was erased. */
  lemma FirstWorkerGains(before: seq<Step>, s: State, t: State, log: seq<Step>, p: Report, config: Config,
                         i: nat, w: WorkerId)
    requires CheckDone(before, s, t, log, p, config) && i < |p.turns| && p.turns[i].gained == Some(w)
    ensures p.turns[i].before < p.ceiling && w in p.list
    ensures |InRoom(t.tasks.Keys, p.turns[i].room)| == p.turns[i].before + 1
    ensures p.turns[i].at < |log| && log[p.turns[i].at] == Assign(Key(w, p.turns[i].room))
    ensures forall x, y :: 0 <= x < y < |p.list| && p.list[y] == w ==>
      PassedOver(log, p.turns, i, p.list[x])
  {
    hide CheckDone, TurnsFollow, StateAt, TurnDecides, InTime, InRoom, Takes, TurnsLogged, CheckLogged;
    TurnCounts(before, s, t, log, p, config, i);
    TurnsOfCheck(before, s, t, log, p, config);
    TurnDecided(log, p.turns, p.ceiling, p.minimum, i);
    TurnGainsExactly(StateAt(log, p.turns[i]), p.turns[i], p.ceiling, p.minimum,
                     MAX_DISCONNECTS - Trimmed(p.turns[..i]));
    OfferedInOrder(log, p.turns, p.ceiling, p.minimum, i);
    ThinnedMembers(p.turns[i].offered, p.list);
    LoggedInCheck(before, s, t, log, p, config);
    LoggedPhases(s, before, log, p, config);
    TurnSends(log, p.purged, p.turns, i);
    var n :| 0 <= n < |p.turns[i].offered| && p.turns[i].gained == Some(p.turns[i].offered[n])
             && FirstToTake(StateAt(log, p.turns[i]), p.turns[i].room, p.turns[i].offered, n);
    assert p.turns[i].offered[n] in p.turns[i].offered;
    forall x, y | 0 <= x < y < |p.list| && p.list[y] == w ensures PassedOver(log, p.turns, i, p.list[x]) {
      EarlierPassedOver(before, s, t, log, p, config, i, n, x, y);
    }
  }

  /** The worker held the room at turn i, or was exhausted at it or at an earlier one. */
  ghost predicate PassedOver(log: seq<Step>, turns: seq<Turn>, i: nat, w: WorkerId)
    requires i < |turns|
  {
    || Key(w, turns[i].room) in StateAt(log, turns[i]).tasks
    || exists j :: 0 <= j <= i && Exhausted(StateAt(log, turns[j]), w)
  }

  lemma EarlierPassedOver(before: seq<Step>, s: State, t: State, log: seq<Step>, p: Report, config: Config,
                          i: nat, n: nat, x: nat, y: nat)
    requires CheckDone(before, s, t, log, p, config) && i < |p.turns| && n < |p.turns[i].offered|
    requires FirstToTake(StateAt(log, p.turns[i]), p.turns[i].room, p.turns[i].offered, n)
    requires x < y < |p.list| && p.list[y] == p.turns[i].offered[n]
    ensures PassedOver(log, p.turns, i, p.list[x])
  {
    hide CheckDone, TurnsFollow, StateAt, Eligible, Thinned;
    var w, offered := p.list[x], p.turns[i].offered;
    TurnsOfCheck(before, s, t, log, p, config);
    ListIsDistinct(before, s, t, log, p, config);
    assert w in p.list;
    var j := OfferedOrErased(log, p.turns, p.ceiling, p.minimum, i, w);
    ListedWorkerStays(before, s, t, log, p, config, w, j);
    if j == i {
      var m :| 0 <= m < |offered| && offered[m] == w;
      OfferedInOrder(log, p.turns, p.ceiling, p.minimum, i);
      ThinnedInOrder(offered, p.list, m, n, x, y);
      assert !Takes(StateAt(log, p.turns[i]), p.turns[i].room, offered[m]);
    }
    NotEligibleIsExhausted(StateAt(log, p.turns[j]), w);
  }

  lemma NotEligibleIsExhausted(s: State, w: WorkerId)
    requires w in s.workers
    ensures Eligible(s, w) <==> !Exhausted(s, w)
  {
  }

  lemma ListIsDistinct(before: seq<Step>, s: State, t: State, log: seq<Step>, p: Report, config: Config)
    requires CheckDone(before, s, t, log, p, config)
    ensures Distinct(p.list)
  {
    hide CheckLogged, Replay, TurnsFit, TurnsFollow, InTime, HeardFrom, RoomsExact, FreestFirst, CanCollect, Spared;
  }
}
