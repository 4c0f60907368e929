/** Theorems about whole runs of the scheduler: they hold of every legal log. */
module SchedulerRuns {
  import opened Prelude
  import opened SchedulerModel

  /** The state just before step i of a legal log. */
  ghost function At(log: seq<Step>, i: nat): State
    requires i <= |log| && Replay(log).Legal?
  {
    ReplayPrefix(log, i);
    Replay(log[..i]).state
  }

  lemma AtNext(log: seq<Step>, i: nat)
    requires i < |log| && Replay(log).Legal?
    ensures Enabled(At(log, i), log[i]) && At(log, i + 1) == Apply(At(log, i), log[i])
    ensures Inv(At(log, i)) && Inv(At(log, i + 1))
  {
    ReplayPrefix(log, i);
    ReplayPrefix(log, i + 1);
    EveryRunKeepsInv(log[..i]);
    EveryRunKeepsInv(log[..i + 1]);
  }

  // ----- room counters -----

  /** From a recount on, the room counters are exact until a worker's tasks are dropped
      without notice. */
  lemma {:induction false} RecountHolds(log: seq<Step>, i: nat, j: nat)
    requires i < j <= |log| && Replay(log).Legal? && log[i].Recount?
    requires forall m :: i < m < j ==> !DropsSilently(log[m])
    ensures RoomsExact(At(log, j))
    decreases j
  {
    AtNext(log, j - 1);
    if i < j - 1 {
      RecountHolds(log, i, j - 1);
    }
    StepKeeps(At(log, j - 1), log[j - 1]);
  }

  // ----- tasks rebuilt from the messages alone -----

  /** The (worker, room) pairs a reader of the log alone would believe in. */
  function Believed(log: seq<Step>): set<Key>
    decreases |log|
  {
    if log == [] then {}
    else
      var before := Believed(log[..|log| - 1]);
      match log[|log| - 1]
      case Assign(k) => before + {k}
      case Unassign(k, _) => before - {k}
      case Fail(k, _) => before - {k}
      case Reset(w, _) => before - OfWorker(before, w)
      case Clear(w) => before - OfWorker(before, w)
      case _ => before
  }

  /** Folding the messages and drops of a run rebuilds exactly the keys of the task table;
      an assign is only ever sent for an absent pair, an unassign for a present one. */
  lemma {:induction false} LogRebuildsTasks(log: seq<Step>)
    requires Replay(log).Legal?
    ensures Believed(log) == Replay(log).state.tasks.Keys
    ensures forall i {:trigger log[i]} :: 0 <= i < |log| ==>
      && (log[i].Assign? ==> log[i].key !in Believed(log[..i]))
      && (log[i].Unassign? || log[i].Fail? ==> log[i].key in Believed(log[..i]))
    decreases |log|
  {
    if log != [] {
      var n := |log| - 1;
      var before := Replay(log[..n]).state;
      LogRebuildsTasks(log[..n]);
      forall i | 0 <= i < |log|
        ensures log[i].Assign? ==> log[i].key !in Believed(log[..i])
        ensures log[i].Unassign? || log[i].Fail? ==> log[i].key in Believed(log[..i])
      {
        if i < n {
          assert log[..n][i] == log[i] && log[..n][..i] == log[..i];
        }
      }
      match log[n]
      case Reset(w, _) =>
        assert WithoutWorker(before.tasks, w).Keys == before.tasks.Keys - OfWorker(before.tasks.Keys, w);
      case Clear(w) =>
        assert WithoutWorker(before.tasks, w).Keys == before.tasks.Keys - OfWorker(before.tasks.Keys, w);
      case _ =>
    }
  }

  /** A worker stays until it is erased. */
  lemma {:induction false} WorkerStays(log: seq<Step>, i: nat, j: nat, w: WorkerId)
    requires Replay(log).Legal? && i <= j <= |log| && w in At(log, i).workers
    requires forall m :: i <= m < j ==> !log[m].Erase?
    ensures w in At(log, j).workers
    decreases j
  {
    hide Replay, At, Inv, RecountRooms, InRoom, OfWorker, WithoutWorker;
    if i < j {
      WorkerStays(log, i, j - 1, w);
      AtNext(log, j - 1);
    }
  }

  // ----- where data comes from -----

  predicate Ends(step: Step, k: Key) {
    match step
    case Unassign(k', _) => k' == k
    case Fail(k', _) => k' == k
    case Reset(w, _) => w == k.worker
    case Clear(w) => w == k.worker
    case _ => false
  }

  predicate Restarts(step: Step, w: WorkerId) {
    match step
    case Reset(v, _) => v == w
    case Erase(v) => v == w
    case Connect(v, _) => v == w
    case _ => false
  }

  /** A task in the table was assigned, and nothing has ended it since. */
  lemma {:induction false} TaskWasAssigned(log: seq<Step>, k: Key) returns (a: nat)
    requires Replay(log).Legal? && k in Replay(log).state.tasks
    ensures a < |log| && log[a] == Assign(k)
    ensures forall m :: a < m < |log| ==> !Ends(log[m], k)
    decreases |log|
  {
    var n := |log| - 1;
    if log[n] == Assign(k) {
      a := n;
    } else {
      a := TaskWasAssigned(log[..n], k);
      forall m | a < m < |log| ensures !Ends(log[m], k) {
        if m < n {
          assert log[..n][m] == log[m];
        }
      }
    }
  }

  lemma TaskLossStep(s: State, step: Step, k: Key)
    requires Enabled(s, step) && k in s.tasks && k !in Apply(s, step).tasks
    ensures Ends(step, k)
  {
    hide RecountRooms, RecountWorkers, InRoom, OfWorker, Punish;
  }

  /** A task that disappears was ended by a logged step. */
  lemma {:induction false} TaskLossIsLogged(log: seq<Step>, i: nat, j: nat, k: Key) returns (m: nat)
    requires Replay(log).Legal? && i <= j <= |log| && k in At(log, i).tasks && k !in At(log, j).tasks
    ensures i <= m < j && Ends(log[m], k)
    decreases j
  {
    hide Apply, Enabled, Replay, At, Inv, Ends;
    AtNext(log, j - 1);
    if k in At(log, j - 1).tasks {
      TaskLossStep(At(log, j - 1), log[j - 1], k);
      m := j - 1;
    } else {
      m := TaskLossIsLogged(log, i, j - 1, k);
    }
  }

  /** A worker that is initialized sent an accepted ready message and was not reset since. */
  lemma {:induction false} WorkerWasReady(log: seq<Step>, w: WorkerId) returns (r: nat)
    requires Replay(log).Legal? && w in Replay(log).state.workers && Replay(log).state.workers[w].initialized
    ensures r < |log| && log[r].Ready? && log[r].worker == w
    ensures forall m :: r < m < |log| ==> !Restarts(log[m], w)
    decreases |log|
  {
    var n := |log| - 1;
    if log[n].Ready? && log[n].worker == w {
      r := n;
    } else {
      r := WorkerWasReady(log[..n], w);
      forall m | r < m < |log| ensures !Restarts(log[m], w) {
        if m < n {
          assert log[..n][m] == log[m];
        }
      }
    }
  }

  /** Every payload passed on comes from a worker that had passed the ready step and been
      assigned that room, and neither had been undone by then. */
  lemma ForwardedDataIsEntitled(log: seq<Step>, j: nat) returns (r: nat, a: nat)
    requires Replay(log).Legal? && j < |log| && log[j].Forward?
    ensures var k := log[j].key;
            && r < a < j && log[a] == Assign(k) && log[r].Ready? && log[r].worker == k.worker
            && (forall m :: a < m < j ==> !Ends(log[m], k))
            && (forall m :: r < m < a ==> !Restarts(log[m], k.worker))
  {
    var k := log[j].key;
    AtNext(log, j);
    ReplayPrefix(log, j);
    a := TaskWasAssigned(log[..j], k);
    assert log[..j][a] == log[a];
    AtNext(log, a);
    ReplayPrefix(log, a);
    assert WorkerOk(At(log, a).workers[k.worker], |OfWorker(At(log, a).tasks.Keys, k.worker)|);
    r := WorkerWasReady(log[..a], k.worker);
    forall m | a < m < j ensures !Ends(log[m], k) {
      assert log[..j][m] == log[m];
    }
    forall m | r < m < a ensures !Restarts(log[m], k.worker) {
      assert log[..a][m] == log[m];
    }
  }

  // ----- quotas and capacity -----

  /** How many tasks the steps [i, j) assign to w. */
  function Assigned(log: seq<Step>, i: nat, j: nat, w: WorkerId): nat
    requires i <= j <= |log|
    decreases j - i
  {
    if i == j then 0
    else Assigned(log, i, j - 1, w) + (if log[j - 1].Assign? && log[j - 1].key.worker == w then 1 else 0)
  }

  /** What one step does to a worker it does not restart or collect. */
  lemma WorkerStep(s: State, step: Step, w: WorkerId)
    requires Inv(s) && Enabled(s, step) && w in s.workers
    requires !Restarts(step, w) && !(step.Collect? && step.worker == w)
    ensures w in Apply(s, step).workers
    ensures var before, after := s.workers[w], Apply(s, step).workers[w];
            if step.Assign? && step.key.worker == w then
              && after.remaining == before.remaining - 1 && before.remaining > 0
              && after.connections == before.connections + 1 <= before.maxRooms + 1
              && after.maxRooms == before.maxRooms && after.initialized == before.initialized
            else
              && after.remaining == before.remaining
              && after.connections <= before.connections
              && (before.initialized ==> after.initialized && after.maxRooms == before.maxRooms)
  {
    assert WorkerOk(s.workers[w], |OfWorker(s.tasks.Keys, w)|);
  }

  lemma CollectStep(s: State, w: WorkerId, quota: int)
    requires Inv(s) && Enabled(s, Collect(w, quota))
    ensures w in s.workers && w in Apply(s, Collect(w, quota)).workers
    ensures var before, after := s.workers[w], Apply(s, Collect(w, quota)).workers[w];
            && before.initialized && after == before.(remaining := quota, punished := false)
            && 0 <= before.connections < before.maxRooms
  {
    assert WorkerOk(s.workers[w], |OfWorker(s.tasks.Keys, w)|);
  }

  lemma LimitOf(s: State, w: WorkerId)
    requires Inv(s) && w in s.workers && s.workers[w].initialized && s.workers[w].maxRooms >= 0
    ensures s.workers[w].connections <= s.workers[w].maxRooms + 1
  {
    assert WorkerOk(s.workers[w], |OfWorker(s.tasks.Keys, w)|);
  }

  /** Nothing restarts worker w or collects it again in the steps (i, j). */
  predicate OneCollection(log: seq<Step>, i: nat, j: nat, w: WorkerId)
    requires i < j <= |log|
  {
    && log[i].Collect? && log[i].worker == w
    && forall m :: i < m < j ==> !Restarts(log[m], w) && (log[m].Collect? ==> log[m].worker != w)
  }

  /** One collection grants a worker at most its quota of new tasks, and never takes it
      more than one beyond its limit. */
  lemma {:induction false} QuotaPerCollection(log: seq<Step>, i: nat, j: nat, w: WorkerId)
    requires Replay(log).Legal? && i < j <= |log| && OneCollection(log, i, j, w)
    ensures var given := Assigned(log, i + 1, j, w);
            && given <= Max(0, log[i].quota)
            && w in At(log, j).workers
            && var worker := At(log, j).workers[w];
            && worker.initialized && 0 <= worker.maxRooms
            && worker.remaining == log[i].quota - given
            && worker.connections <= worker.maxRooms + 1
    decreases j
  {
    hide Apply, Enabled, Inv, At, Replay;
    AtNext(log, j - 1);
    var s := At(log, j - 1);
    if i < j - 1 {
      QuotaPerCollection(log, i, j - 1, w);
      assert !Restarts(log[j - 1], w) && (log[j - 1].Collect? ==> log[j - 1].worker != w);
      WorkerStep(s, log[j - 1], w);
    } else {
      CollectStep(s, w, log[i].quota);
    }
    LimitOf(At(log, j), w);
  }

  /** A quota within what the worker has left keeps it within its limit: only a larger one
      can push it over. */
  lemma {:induction false} SmallQuotaStaysWithinLimit(log: seq<Step>, i: nat, j: nat, w: WorkerId)
    requires Replay(log).Legal? && i < j <= |log| && OneCollection(log, i, j, w)
    requires w in At(log, i).workers
    requires log[i].quota <= At(log, i).workers[w].maxRooms - At(log, i).workers[w].connections
    ensures w in At(log, j).workers
    ensures var worker := At(log, j).workers[w];
            worker.initialized && worker.connections + Max(0, worker.remaining) <= worker.maxRooms
    decreases j
  {
    hide Apply, Enabled, Inv, At, Replay;
    AtNext(log, j - 1);
    var s := At(log, j - 1);
    if i < j - 1 {
      SmallQuotaStaysWithinLimit(log, i, j - 1, w);
      assert !Restarts(log[j - 1], w) && (log[j - 1].Collect? ==> log[j - 1].worker != w);
      WorkerStep(s, log[j - 1], w);
    } else {
      CollectStep(s, w, log[i].quota);
    }
  }

  /** The run's checks hand out this quota (max_new_tasks_per_bunch). */
  ghost predicate Grants(log: seq<Step>, quota: int) {
    forall i :: 0 <= i < |log| && log[i].Collect? ==> log[i].quota == quota
  }

  /** Every worker is within its limit. */
  ghost predicate WithinLimits(s: State) {
    forall w :: w in s.workers ==> s.workers[w].connections <= Max(0, s.workers[w].maxRooms)
  }

  /** ... and what is left of a quota fits below it. */
  ghost predicate QuotasFit(s: State) {
    forall w :: w in s.workers && w in s.available && s.workers[w].remaining > 0 ==>
      s.workers[w].remaining == 1 && s.workers[w].connections < s.workers[w].maxRooms
  }

  lemma SmallQuotaStep(s: State, step: Step)
    requires Inv(s) && Enabled(s, step) && WithinLimits(s) && QuotasFit(s)
    requires step.Collect? ==> step.quota <= 1
    ensures WithinLimits(Apply(s, step)) && QuotasFit(Apply(s, step))
  {
    var t := Apply(s, step);
    forall w | w in t.workers
      ensures t.workers[w].connections <= Max(0, t.workers[w].maxRooms)
      ensures w in t.available && t.workers[w].remaining > 0 ==>
        t.workers[w].remaining == 1 && t.workers[w].connections < t.workers[w].maxRooms
    {
      SmallQuotaStepOf(s, step, w);
    }
  }

  lemma SmallQuotaStepOf(s: State, step: Step, w: WorkerId)
    requires Inv(s) && Enabled(s, step) && WithinLimits(s) && QuotasFit(s) && w in Apply(s, step).workers
    requires step.Collect? ==> step.quota <= 1
    ensures var t := Apply(s, step);
            && t.workers[w].connections <= Max(0, t.workers[w].maxRooms)
            && (w in t.available && t.workers[w].remaining > 0 ==>
                  t.workers[w].remaining == 1 && t.workers[w].connections < t.workers[w].maxRooms)
  {
    if w in s.workers {
      assert WorkerOk(s.workers[w], |OfWorker(s.tasks.Keys, w)|);
      if !Restarts(step, w) && !(step.Collect? && step.worker == w) {
        WorkerStep(s, step, w);
      }
    }
  }

  /** While no check hands a worker more than one task, nobody goes over its limit. */
  lemma {:induction false} SmallQuotasKeepLimits(log: seq<Step>)
    requires Replay(log).Legal? && forall i :: 0 <= i < |log| && log[i].Collect? ==> log[i].quota <= 1
    ensures WithinLimits(Replay(log).state) && QuotasFit(Replay(log).state)
    decreases |log|
  {
    hide Apply, Enabled, Inv, WithinLimits, QuotasFit;
    if log == [] {
      NobodyOverLimit();
    } else {
      var n := |log| - 1;
      assert forall i :: 0 <= i < n ==> log[..n][i] == log[i];
      SmallQuotasKeepLimits(log[..n]);
      EveryRunKeepsInv(log[..n]);
      SmallQuotaStep(Replay(log[..n]).state, log[n]);
    }
  }

  lemma NobodyOverLimit()
    ensures WithinLimits(INITIAL) && QuotasFit(INITIAL)
  {
  }

  /** The quotas that keep every worker within its limit in every run are exactly those
      that hand out at most one task in a check. */
  lemma LimitsKeptExactlyBySmallQuotas(quota: int)
    ensures (forall log :: Replay(log).Legal? && Grants(log, quota) ==> WithinLimits(Replay(log).state)) <==> quota <= 1
  {
    if quota <= 1 {
      forall log | Replay(log).Legal? && Grants(log, quota) ensures WithinLimits(Replay(log).state) {
        SmallQuotasKeepLimits(log);
      }
    } else {
      LimitExceeded(quota);
      OverLimitGrants(quota);
    }
  }

  /** With a larger quota a worker with room for one task can end up with two.  The steps
      are those of a connection, a ready message, a room list and a check. */
  const READY_WORKER: seq<Step> := [Connect(1, 0)] + [Hear(1, 1)] + [Reset(1, 2)] + [Ready(1, 1)]
  const TWO_ROOMS: seq<Step> := READY_WORKER + [AddRoom(7)] + [AddRoom(8)]
  const READY_STATE: State :=
    INITIAL.(workers := map[1 := Worker(1, true, 1, 0, 0, 2, false)])
  const TWO_ROOMS_STATE: State := READY_STATE.(rooms := map[7 := NewRoom(), 8 := NewRoom()])

  function OverLimit(quota: int): seq<Step> {
    TWO_ROOMS + [BeginCheck(5000)] + [Recount] + [Collect(1, quota)] + [Assign(Key(1, 7))] + [Assign(Key(1, 8))]
  }

  lemma OverLimitGrants(quota: int)
    ensures Grants(OverLimit(quota), quota)
  {
  }

  lemma ReadyWorkerState()
    ensures Replay(READY_WORKER) == Legal(READY_STATE)
  {
    assert Replay([]) == Legal(INITIAL);
    assert [] + [Connect(1, 0)] == [Connect(1, 0)];
    hide Replay;
    var log := [Connect(1, 0)];
    ReplayNext([], Connect(1, 0));
    ReplayNext(log, Hear(1, 1));
    log := log + [Hear(1, 1)];
    ReplayNext(log, Reset(1, 2));
    log := log + [Reset(1, 2)];
    assert WithoutWorker(map[], 1) == map[];
    ReplayNext(log, Ready(1, 1));
  }

  lemma TwoRoomsState()
    ensures Replay(TWO_ROOMS) == Legal(TWO_ROOMS_STATE)
  {
    hide Replay;
    ReadyWorkerState();
    ReplayNext(READY_WORKER, AddRoom(7));
    ReplayNext(READY_WORKER + [AddRoom(7)], AddRoom(8));
  }

  lemma NothingToRecount(start: Time)
    ensures var s := TWO_ROOMS_STATE.(lastChecked := start); Apply(s, Recount) == s
  {
    var s := TWO_ROOMS_STATE;
    assert OfWorker(s.tasks.Keys, 1) == {} && InRoom(s.tasks.Keys, 7) == {} && InRoom(s.tasks.Keys, 8) == {};
    assert RecountWorkers(s.tasks, s.workers) == s.workers;
    assert RecountRooms(s.tasks, s.rooms) == s.rooms;
  }

  lemma LimitExceeded(quota: int)
    requires quota >= 2
    ensures var run := Replay(OverLimit(quota));
            && run.Legal? && 1 in run.state.workers
            && run.state.workers[1].maxRooms == 1 && run.state.workers[1].connections == 2
  {
    hide Replay, RecountWorkers, RecountRooms;
    TwoRoomsState();
    var log := TWO_ROOMS;
    ReplayNext(log, BeginCheck(5000));
    log := log + [BeginCheck(5000)];
    NothingToRecount(5000);
    ReplayNext(log, Recount);
    log := log + [Recount];
    ReplayNext(log, Collect(1, quota));
    log := log + [Collect(1, quota)];
    ReplayNext(log, Assign(Key(1, 7)));
    log := log + [Assign(Key(1, 7))];
    ReplayNext(log, Assign(Key(1, 8)));
  }

  // ----- penalties -----

  predicate Penalises(step: Step, w: WorkerId) {
    (step.Unassign? || step.Fail?) && step.key.worker == w && step.penalty.Penalty?
  }

  function Until(p: Penalty): Time
    requires p.Penalty?
  {
    p.at + p.length
  }

  /** The clock readings of a run's penalties never decrease and the length is fixed. */
  predicate ClockedPenalties(log: seq<Step>, length: Time) {
    && (forall i {:trigger log[i]} :: 0 <= i < |log| && (log[i].Unassign? || log[i].Fail?) && log[i].penalty.Penalty?
          ==> log[i].penalty.length == length)
    && (forall i, j {:trigger log[i], log[j]} :: 0 <= i < j < |log|
          && (log[i].Unassign? || log[i].Fail?) && log[i].penalty.Penalty?
          && (log[j].Unassign? || log[j].Fail?) && log[j].penalty.Penalty?
          ==> log[i].penalty.at <= log[j].penalty.at)
  }

  lemma PenaltyStep(s: State, step: Step, w: WorkerId, until: Time)
    requires Inv(s) && Enabled(s, step) && w in s.workers && !Restarts(step, w)
    requires if Penalises(step, w) then Until(step.penalty) >= until else s.workers[w].allowAfter >= until
    ensures w in Apply(s, step).workers && Apply(s, step).workers[w].allowAfter >= until
  {
    assert WorkerOk(s.workers[w], |OfWorker(s.tasks.Keys, w)|);
    hide Inv, WithoutWorker, RecountRooms, InRoom, OfWorker;
  }

  lemma PenalisedIsKnown(s: State, step: Step, w: WorkerId)
    requires Inv(s) && Enabled(s, step) && Penalises(step, w)
    ensures w in s.workers && !Restarts(step, w)
  {
  }

  lemma {:induction false} PenaltyStands(log: seq<Step>, i: nat, j: nat, w: WorkerId, length: Time)
    requires Replay(log).Legal? && i < j <= |log| && Penalises(log[i], w) && ClockedPenalties(log, length)
    requires forall m :: i < m < j ==> !Restarts(log[m], w)
    ensures w in At(log, j).workers && At(log, j).workers[w].allowAfter >= Until(log[i].penalty)
    decreases j
  {
    hide Apply, Enabled, Inv, Replay, At;
    AtNext(log, j - 1);
    if i < j - 1 {
      PenaltyStands(log, i, j - 1, w, length);
      assert !Restarts(log[j - 1], w);
    } else {
      PenalisedIsKnown(At(log, i), log[i], w);
    }
    PenaltyStep(At(log, j - 1), log[j - 1], w, Until(log[i].penalty));
  }

  /** A task is only assigned to a worker the same check collected. */
  lemma {:induction false} AvailableWasCollected(log: seq<Step>, w: WorkerId) returns (c: nat)
    requires Replay(log).Legal? && w in Replay(log).state.available
    ensures c < |log| && log[c].Collect? && log[c].worker == w
    ensures forall m :: c < m < |log| ==> !log[m].BeginCheck?
    decreases |log|
  {
    var n := |log| - 1;
    if log[n].Collect? && log[n].worker == w {
      c := n;
    } else {
      c := AvailableWasCollected(log[..n], w);
      forall m | c < m < |log| ensures !log[m].BeginCheck? {
        if m < n {
          assert log[..n][m] == log[m];
        }
      }
    }
  }

  lemma {:induction false} SameCheck(log: seq<Step>, c: nat, j: nat)
    requires Replay(log).Legal? && c <= j <= |log|
    requires forall m :: c <= m < j ==> !log[m].BeginCheck?
    ensures At(log, j).lastChecked == At(log, c).lastChecked
    decreases j
  {
    if c < j {
      AtNext(log, j - 1);
      SameCheck(log, c, j - 1);
    }
  }

  /** Penalties hold over whole runs: a task assigned to a penalised worker belongs to a
      check that collected its workers before the penalty, or to one that started after it
      ran out, unless the worker was reset in between. */
  lemma PenaltyBlocksAssignment(log: seq<Step>, i: nat, j: nat, length: Time) returns (c: nat)
    requires Replay(log).Legal? && i < j < |log| && log[j].Assign? && Penalises(log[i], log[j].key.worker)
    requires ClockedPenalties(log, length)
    requires forall m :: i < m < j ==> !Restarts(log[m], log[j].key.worker)
    ensures c < j && log[c].Collect? && log[c].worker == log[j].key.worker
    ensures forall m :: c < m < j ==> !log[m].BeginCheck?
    ensures c < i || At(log, j).lastChecked > Until(log[i].penalty)
  {
    hide Inv, ClockedPenalties, Apply, Replay, At;
    var w := log[j].key.worker;
    AtNext(log, j);
    ReplayPrefix(log, j);
    c := AvailableWasCollected(log[..j], w);
    assert log[..j][c] == log[c];
    forall m | c < m < j ensures !log[m].BeginCheck? {
      assert log[..j][m] == log[m];
    }
    if i < c {
      PenaltyStands(log, i, c, w, length);
      AtNext(log, c);
      SameCheck(log, c, j);
    }
  }

  // ----- what a room can hold -----

  /** Pairs are unique and their workers exist, so a room has at most one task a worker. */
  lemma RoomHoldsAtMostAllWorkers(s: State, r: RoomId)
    requires Inv(s)
    ensures |InRoom(s.tasks.Keys, r)| <= |s.workers|
  {
    DistinctWorkers(InRoom(s.tasks.Keys, r), s.workers.Keys, r);
  }

  lemma {:induction false} DistinctWorkers(keys: set<Key>, workers: set<WorkerId>, r: RoomId)
    requires forall k :: k in keys ==> k.room == r && k.worker in workers
    ensures |keys| <= |workers|
    decreases |keys|
  {
    if keys != {} {
      var k :| k in keys;
      DistinctWorkers(keys - {k}, workers - {k.worker}, r);
    }
  }

  // ----- the worker's own picture -----

  /** The calls sent to a worker by the steps [i, j), as rooms it then has open. */
  function OpenRooms(log: seq<Step>, i: nat, j: nat, w: WorkerId): set<RoomId>
    requires i <= j <= |log|
    decreases j - i
  {
    if i == j then {}
    else
      var before := OpenRooms(log, i, j - 1, w);
      match log[j - 1]
      case Assign(k) => if k.worker == w then before + {k.room} else before
      case Unassign(k, _) => if k.worker == w then before - {k.room} else before
      case _ => before
  }

  function RoomsOf(s: State, w: WorkerId): set<RoomId> {
    set k | k in s.tasks && k.worker == w :: k.room
  }

  /** Counting from a moment at which the worker has no task, the rooms it was told to open
      and not told to close are exactly those the table lists for it, as long as it is not
      reset and reports no failure. */
  lemma {:induction false} SentCallsMatchTasks(log: seq<Step>, i: nat, j: nat, w: WorkerId)
    requires Replay(log).Legal? && i <= j <= |log|
    requires OfWorker(At(log, i).tasks.Keys, w) == {}
    requires forall m :: i <= m < j ==>
      !(log[m].Fail? && log[m].key.worker == w) && !(DropsSilently(log[m]) && log[m].worker == w)
    ensures OpenRooms(log, i, j, w) == RoomsOf(At(log, j), w)
    decreases j
  {
    if i == j {
      forall k | k in At(log, j).tasks ensures k.worker != w {
        assert k !in OfWorker(At(log, i).tasks.Keys, w);
      }
    } else {
      AtNext(log, j - 1);
      SentCallsMatchTasks(log, i, j - 1, w);
      RoomsAfterStep(At(log, j - 1), log[j - 1], w);
    }
  }

  lemma RoomsAfterStep(s: State, step: Step, w: WorkerId)
    requires Enabled(s, step)
    requires !(step.Fail? && step.key.worker == w) && !(DropsSilently(step) && step.worker == w)
    ensures RoomsOf(Apply(s, step), w)
         == match step
            case Assign(k) => if k.worker == w then RoomsOf(s, w) + {k.room} else RoomsOf(s, w)
            case Unassign(k, _) => if k.worker == w then RoomsOf(s, w) - {k.room} else RoomsOf(s, w)
            case _ => RoomsOf(s, w)
  {
    var t := Apply(s, step);
    match step
    case Assign(k) =>
      forall r | r in RoomsOf(s, w) ensures r in RoomsOf(t, w) {
        assert Key(w, r) in s.tasks && Key(w, r) in t.tasks;
      }
      if k.worker == w {
        assert k in t.tasks && k.room in RoomsOf(t, w);
      }
    case Unassign(k, _) =>
      forall r | r in RoomsOf(s, w) && Key(w, r) != k ensures r in RoomsOf(t, w) {
        assert Key(w, r) in t.tasks;
      }
    case Fail(k, _) =>
      forall r | r in RoomsOf(s, w) ensures r in RoomsOf(t, w) {
        assert Key(w, r) in t.tasks;
      }
    case Reset(v, _) =>
      forall r | r in RoomsOf(s, w) ensures r in RoomsOf(t, w) {
        assert Key(w, r) in t.tasks;
      }
    case Clear(v) =>
      forall r | r in RoomsOf(s, w) ensures r in RoomsOf(t, w) {
        assert Key(w, r) in t.tasks;
      }
    case Touch(k, _) =>
      assert t.tasks.Keys == s.tasks.Keys;
    case _ =>
  }
}
