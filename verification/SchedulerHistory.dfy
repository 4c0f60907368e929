/** The tables read off the log: every field of a worker, a task or a room is what the last
    step that concerns it made it, in every legal log. */
module SchedulerHistory {
  import opened SchedulerModel
  import opened SchedulerRuns

  // ----- who is known -----

  /** The workers a reader of the log would believe connected. */
  function ConnectedWorkers(log: seq<Step>): set<WorkerId>
    decreases |log|
  {
    if log == [] then {}
    else
      var before := ConnectedWorkers(log[..|log| - 1]);
      match log[|log| - 1]
      case Connect(w, _) => before + {w}
      case Erase(w) => before - {w}
      case _ => before
  }

  /** The rooms a reader of the log would believe listed and not yet purged. */
  function KnownRooms(log: seq<Step>): set<RoomId>
    decreases |log|
  {
    if log == [] then {}
    else
      var before := KnownRooms(log[..|log| - 1]);
      match log[|log| - 1]
      case AddRoom(r) => before + {r}
      case PurgeRoom(r) => before - {r}
      case _ => before
  }

  lemma KeysAfterStep(s: State, step: Step)
    requires Inv(s) && Enabled(s, step)
    ensures Apply(s, step).workers.Keys
         == match step
            case Connect(w, _) => s.workers.Keys + {w}
            case Erase(w) => s.workers.Keys - {w}
            case _ => s.workers.Keys
    ensures Apply(s, step).rooms.Keys
         == match step
            case AddRoom(r) => s.rooms.Keys + {r}
            case PurgeRoom(r) => s.rooms.Keys - {r}
            case _ => s.rooms.Keys
  {
    hide OfWorker, InRoom, Punish;
  }

  lemma {:induction false} LogRebuildsOwners(log: seq<Step>)
    requires Replay(log).Legal?
    ensures Replay(log).state.workers.Keys == ConnectedWorkers(log)
    ensures Replay(log).state.rooms.Keys == KnownRooms(log)
    decreases |log|
  {
    if log != [] {
      var n := |log| - 1;
      LogRebuildsOwners(log[..n]);
      EveryRunKeepsInv(log[..n]);
      hide Apply, Inv, Enabled;
      KeysAfterStep(Replay(log[..n]).state, log[n]);
    }
  }

  // ----- workers -----

  predicate SetsLimit(step: Step, w: WorkerId) {
    (step.Ready? && step.worker == w) || Restarts(step, w)
  }

  predicate SetsHeard(step: Step, w: WorkerId) {
    (step.Hear? || step.Connect? || step.Erase?) && step.worker == w
  }

  predicate SetsAllowed(step: Step, w: WorkerId) {
    Restarts(step, w) || Penalises(step, w)
  }

  /** What a step leaves of a worker it does not concern. */
  lemma WorkerKept(s: State, step: Step, w: WorkerId)
    requires Inv(s) && Enabled(s, step) && w in s.workers && step != Erase(w)
    ensures w in Apply(s, step).workers
    ensures var before, after := s.workers[w], Apply(s, step).workers[w];
            && (!SetsLimit(step, w) ==> after.initialized == before.initialized && after.maxRooms == before.maxRooms)
            && (!SetsHeard(step, w) ==> after.lastReceived == before.lastReceived)
            && (!SetsAllowed(step, w) ==> after.allowAfter == before.allowAfter)
  {
    hide OfWorker, InRoom, RecountRooms, WithoutWorker;
  }

  /** What a step makes of a worker it concerns. */
  lemma WorkerSet(s: State, step: Step, w: WorkerId)
    requires Inv(s) && Enabled(s, step) && step != Erase(w)
    requires SetsLimit(step, w) || SetsHeard(step, w) || SetsAllowed(step, w)
    ensures w in Apply(s, step).workers
    ensures var after := Apply(s, step).workers[w];
            && (step.Ready? ==> after.initialized && after.maxRooms == step.maxRooms)
            && (Restarts(step, w) ==> !after.initialized && after.maxRooms == -1)
            && (SetsHeard(step, w) ==> after.lastReceived == step.at)
            && (step.Connect? ==> after.allowAfter == 0)
            && (step.Reset? ==> after.allowAfter == step.at)
            && (Penalises(step, w) ==> after.allowAfter == step.penalty.at + step.penalty.length)
  {
    if step.Unassign? || step.Fail? {
      assert WorkerOk(s.workers[w], |OfWorker(s.tasks.Keys, w)|);
    }
    hide Inv, OfWorker, InRoom, RecountRooms, RecountWorkers, WithoutWorker;
  }

  lemma {:induction false} WorkerUntouched(log: seq<Step>, i: nat, j: nat, w: WorkerId)
    requires Replay(log).Legal? && i <= j <= |log| && w in At(log, i).workers
    requires forall m :: i <= m < j ==> log[m] != Erase(w)
    ensures w in At(log, j).workers
    ensures var before, after := At(log, i).workers[w], At(log, j).workers[w];
            && ((forall m :: i <= m < j ==> !SetsLimit(log[m], w)) ==>
                  after.initialized == before.initialized && after.maxRooms == before.maxRooms)
            && ((forall m :: i <= m < j ==> !SetsHeard(log[m], w)) ==> after.lastReceived == before.lastReceived)
            && ((forall m :: i <= m < j ==> !SetsAllowed(log[m], w)) ==> after.allowAfter == before.allowAfter)
    decreases j
  {
    hide Replay, At, Apply, Enabled, Inv, SetsLimit, SetsHeard, SetsAllowed;
    if i < j {
      WorkerUntouched(log, i, j - 1, w);
      AtNext(log, j - 1);
      WorkerKept(At(log, j - 1), log[j - 1], w);
    }
  }

  /** A worker that is ready cannot announce itself again without a restart. */
  lemma NoSecondReady(s: State, step: Step, w: WorkerId)
    requires Enabled(s, step) && w in s.workers && s.workers[w].initialized && !Restarts(step, w)
    ensures !SetsLimit(step, w)
  {
  }

  /** The limit in the table is the one the worker announced, and the worker counts as ready,
      until it is reset. */
  lemma {:induction false} AnnouncedLimitStands(log: seq<Step>, r: nat, j: nat, w: WorkerId)
    requires Replay(log).Legal? && r < j <= |log| && log[r].Ready? && log[r].worker == w
    requires forall m :: r < m < j ==> !Restarts(log[m], w)
    ensures w in At(log, j).workers
    ensures At(log, j).workers[w].initialized && At(log, j).workers[w].maxRooms == log[r].maxRooms
    decreases j
  {
    hide Replay, At, Apply, Enabled, Inv, SetsLimit;
    AtNext(log, j - 1);
    if r < j - 1 {
      AnnouncedLimitStands(log, r, j - 1, w);
      assert !Restarts(log[j - 1], w);
      NoSecondReady(At(log, j - 1), log[j - 1], w);
      WorkerKept(At(log, j - 1), log[j - 1], w);
    } else {
      ReadySets(log[r], w);
      WorkerSet(At(log, r), log[r], w);
    }
  }

  lemma ReadySets(step: Step, w: WorkerId)
    requires step.Ready? && step.worker == w
    ensures SetsLimit(step, w)
  {
  }

  /** A worker that was connected or reset and has not announced itself since is not ready
      and has no limit. */
  lemma SilentWorkerIsNotReady(log: seq<Step>, r: nat, j: nat, w: WorkerId)
    requires Replay(log).Legal? && r < j <= |log| && (log[r].Connect? || log[r].Reset?) && log[r].worker == w
    requires forall m :: r < m < j ==> !SetsLimit(log[m], w)
    ensures w in At(log, j).workers
    ensures !At(log, j).workers[w].initialized && At(log, j).workers[w].maxRooms == -1
  {
    hide Replay, At, Apply, Enabled, Inv;
    AtNext(log, r);
    WorkerSet(At(log, r), log[r], w);
    WorkerUntouched(log, r + 1, j, w);
  }

  /** A worker's time of last contact is that of its last message or of its connection. */
  lemma LastContact(log: seq<Step>, r: nat, j: nat, w: WorkerId)
    requires Replay(log).Legal? && r < j <= |log| && (log[r].Hear? || log[r].Connect?) && log[r].worker == w
    requires forall m :: r < m < j ==> !SetsHeard(log[m], w)
    ensures w in At(log, j).workers && At(log, j).workers[w].lastReceived == log[r].at
  {
    hide Replay, At, Apply, Enabled, Inv;
    AtNext(log, r);
    WorkerSet(At(log, r), log[r], w);
    WorkerUntouched(log, r + 1, j, w);
  }

  /** New tasks are allowed from the end of the last penalty, from the last reset, or from
      the beginning, whichever came last.  Tasks cut without a penalty change nothing. */
  lemma AllowedSince(log: seq<Step>, r: nat, j: nat, w: WorkerId)
    requires Replay(log).Legal? && r < j <= |log| && SetsAllowed(log[r], w) && log[r] != Erase(w)
    requires forall m :: r < m < j ==> !SetsAllowed(log[m], w)
    ensures w in At(log, j).workers
    ensures At(log, j).workers[w].allowAfter
         == if log[r].Connect? then 0
            else if log[r].Reset? then log[r].at
            else log[r].penalty.at + log[r].penalty.length
  {
    hide Replay, At, Apply, Enabled, Inv;
    AtNext(log, r);
    WorkerSet(At(log, r), log[r], w);
    WorkerUntouched(log, r + 1, j, w);
  }

  // ----- tasks and checks -----

  lemma CheckTimeStep(s: State, step: Step)
    requires Enabled(s, step)
    ensures Apply(s, step).lastChecked == if step.BeginCheck? then step.start else s.lastChecked
  {
    hide OfWorker, InRoom, Punish, RecountRooms, RecountWorkers, WithoutWorker;
  }

  /** The time of the last check is that of the last that began. */
  lemma {:induction false} LastCheck(log: seq<Step>, r: nat, j: nat)
    requires Replay(log).Legal? && r < j <= |log| && log[r].BeginCheck?
    requires forall m :: r < m < j ==> !log[m].BeginCheck?
    ensures At(log, j).lastChecked == log[r].start
    decreases j
  {
    hide Replay, At, Apply, Enabled, Inv;
    AtNext(log, j - 1);
    CheckTimeStep(At(log, j - 1), log[j - 1]);
    if r < j - 1 {
      LastCheck(log, r, j - 1);
    }
  }

  predicate SetsAge(step: Step, k: Key) {
    step == Assign(k) || (step.Touch? && step.key == k) || Ends(step, k)
  }

  lemma TaskStep(s: State, step: Step, k: Key)
    requires Enabled(s, step)
    ensures k in s.tasks && !SetsAge(step, k) ==> k in Apply(s, step).tasks && Apply(s, step).tasks[k] == s.tasks[k]
    ensures step == Assign(k) ==> k in Apply(s, step).tasks && Apply(s, step).tasks[k] == s.lastChecked
    ensures step.Touch? && step.key == k ==> k in Apply(s, step).tasks && Apply(s, step).tasks[k] == step.at
  {
    hide OfWorker, InRoom, Punish, RecountRooms, RecountWorkers;
  }

  /** A task's age counts from its last data, or from the start of the check that assigned
      it. */
  lemma {:induction false} LastData(log: seq<Step>, r: nat, j: nat, k: Key)
    requires Replay(log).Legal? && r < j <= |log| && (log[r] == Assign(k) || (log[r].Touch? && log[r].key == k))
    requires forall m :: r < m < j ==> !SetsAge(log[m], k)
    ensures k in At(log, j).tasks
    ensures At(log, j).tasks[k] == if log[r].Touch? then log[r].at else At(log, r).lastChecked
    decreases j
  {
    hide Replay, At, Apply, Enabled, Inv;
    AtNext(log, j - 1);
    TaskStep(At(log, j - 1), log[j - 1], k);
    if r < j - 1 {
      LastData(log, r, j - 1, k);
      assert !SetsAge(log[j - 1], k);
    }
  }

  // ----- rooms -----

  predicate SetsMark(step: Step, r: RoomId) {
    (step.AddRoom? || step.MarkEmpty? || step.PurgeRoom?) && step.room == r
  }

  predicate SetsActive(step: Step, r: RoomId) {
    (step.AddRoom? || step.Deactivate? || step.PurgeRoom?) && step.room == r
  }

  lemma RoomStep(s: State, step: Step, r: RoomId)
    requires Enabled(s, step)
    ensures r in s.rooms && step != PurgeRoom(r) ==>
      && r in Apply(s, step).rooms
      && (!SetsMark(step, r) ==> Apply(s, step).rooms[r].lastEmptyCrc == s.rooms[r].lastEmptyCrc)
      && (!SetsActive(step, r) ==> Apply(s, step).rooms[r].active == s.rooms[r].active)
    ensures step == AddRoom(r) ==> r in Apply(s, step).rooms && Apply(s, step).rooms[r] == Room(true, 0, 0)
    ensures step.MarkEmpty? && step.room == r ==>
      r in Apply(s, step).rooms && Apply(s, step).rooms[r].lastEmptyCrc == step.at
    ensures step == Deactivate(r) ==> r in Apply(s, step).rooms && !Apply(s, step).rooms[r].active
  {
    hide OfWorker, InRoom, Punish, RecountWorkers, WithoutWorker;
  }

  /** The last payload without checksum of a room is the last that was marked. */
  lemma {:induction false} LastMark(log: seq<Step>, a: nat, j: nat, r: RoomId)
    requires Replay(log).Legal? && a < j <= |log| && SetsMark(log[a], r) && !log[a].PurgeRoom?
    requires forall m :: a < m < j ==> !SetsMark(log[m], r)
    ensures r in At(log, j).rooms
    ensures At(log, j).rooms[r].lastEmptyCrc == if log[a].AddRoom? then 0 else log[a].at
    decreases j
  {
    hide Replay, At, Apply, Enabled, Inv;
    AtNext(log, j - 1);
    RoomStep(At(log, j - 1), log[j - 1], r);
    if a < j - 1 {
      LastMark(log, a, j - 1, r);
      assert !SetsMark(log[j - 1], r);
    }
  }

  /** A room is active from the list that named it first until a list that does not. */
  lemma {:induction false} ActiveSince(log: seq<Step>, a: nat, j: nat, r: RoomId)
    requires Replay(log).Legal? && a < j <= |log| && SetsActive(log[a], r) && !log[a].PurgeRoom?
    requires forall m :: a < m < j ==> !SetsActive(log[m], r)
    ensures r in At(log, j).rooms && At(log, j).rooms[r].active == log[a].AddRoom?
    decreases j
  {
    hide Replay, At, Apply, Enabled, Inv;
    AtNext(log, j - 1);
    RoomStep(At(log, j - 1), log[j - 1], r);
    if a < j - 1 {
      ActiveSince(log, a, j - 1, r);
      assert !SetsActive(log[j - 1], r);
    }
  }
}
