/** The supervisor's scheduler as a log of steps (src/supervisor/worker_scheduler.cpp,
    src/supervisor/worker_scheduler_types.h).

    Every handler of the scheduler is a sequence of the steps below.  `Apply` is what a
    step does to the three tables, `Enabled` when the program may take it, and a log is
    legal when each of its steps was enabled.  Times are in milliseconds. */
module SchedulerModel {
  import opened Bytes
  import opened Prelude
  import Wire

  type WorkerId = nat
  type RoomId = int32
  type Time = int

  datatype Key = Key(worker: WorkerId, room: RoomId)

  datatype Worker = Worker(
    lastReceived: Time,
    initialized: bool,
    maxRooms: int,
    connections: int,
    remaining: int,      // remaining_this_bunch
    allowAfter: Time,    // allow_new_task_after
    punished: bool)

  datatype Room = Room(active: bool, lastEmptyCrc: Time, connections: int)

  datatype State = State(
    tasks: map<Key, Time>,             // unique by (worker, room); the time of the last data
    workers: map<WorkerId, Worker>,
    rooms: map<RoomId, Room>,
    lastChecked: Time,
    available: set<WorkerId>)          // workers the current check has collected

  datatype Penalty = NoPenalty | Penalty(at: Time, length: Time)

  datatype Step =
    | Connect(worker: WorkerId, at: Time)
    | Hear(worker: WorkerId, at: Time)
    | Clear(worker: WorkerId)             // tasks of an identifier that has no worker
    | Reset(worker: WorkerId, at: Time)
    | Erase(worker: WorkerId)
    | Disconnect(worker: WorkerId)
    | Ready(worker: WorkerId, maxRooms: int32)
    | Fail(key: Key, penalty: Penalty)    // the worker gave the room up
    | Unassign(key: Key, penalty: Penalty)
    | Touch(key: Key, at: Time)
    | MarkEmpty(room: RoomId, at: Time)
    | Forward(key: Key, data: Wire.Incoming)
    | Deactivate(room: RoomId)
    | AddRoom(room: RoomId)
    | BeginCheck(start: Time)
    | Recount
    | Collect(worker: WorkerId, quota: int)
    | Assign(key: Key)
    | PurgeRoom(room: RoomId)

  function OfWorker(keys: set<Key>, w: WorkerId): set<Key> {
    set k | k in keys && k.worker == w
  }

  function InRoom(keys: set<Key>, r: RoomId): set<Key> {
    set k | k in keys && k.room == r
  }

  // ----- what a step does -----

  const INITIAL: State := State(map[], map[], map[], 0, {})

  function NewWorker(at: Time): Worker {
    Worker(at, false, -1, 0, 0, 0, false)
  }

  function NewRoom(): Room {
    Room(true, 0, 0)
  }

  function ResetOf(w: Worker, at: Time): Worker {
    w.(initialized := false, connections := 0, maxRooms := -1, allowAfter := at, punished := false)
  }

  function Punish(w: Worker, p: Penalty): (r: Worker)
    ensures r == w.(allowAfter := r.allowAfter)
  {
    match p
    case NoPenalty => w
    case Penalty(at, length) => w.(allowAfter := if w.punished then w.allowAfter + length else at + length)
  }

  function WithoutWorker(tasks: map<Key, Time>, w: WorkerId): map<Key, Time> {
    map k | k in tasks && k.worker != w :: tasks[k]
  }

  /** delete_task: the entry goes, and both counters if their owners exist. */
  function RemoveTask(s: State, k: Key, p: Penalty): State {
    s.(tasks := s.tasks - {k},
       workers :=
         if k.worker in s.workers then
           var w := Punish(s.workers[k.worker], p);
           s.workers[k.worker := w.(connections := w.connections - 1)]
         else s.workers,
       rooms :=
         if k.room in s.rooms then
           s.rooms[k.room := s.rooms[k.room].(connections := s.rooms[k.room].connections - 1)]
         else s.rooms)
  }

  function AddTask(s: State, k: Key): State
    requires k.worker in s.workers && k.room in s.rooms
  {
    var w, r := s.workers[k.worker], s.rooms[k.room];
    s.(tasks := s.tasks[k := s.lastChecked],
       workers := s.workers[k.worker := w.(connections := w.connections + 1, remaining := w.remaining - 1)],
       rooms := s.rooms[k.room := r.(connections := r.connections + 1)])
  }

  function RecountWorkers(tasks: map<Key, Time>, workers: map<WorkerId, Worker>): map<WorkerId, Worker> {
    map w | w in workers :: workers[w].(connections := |OfWorker(tasks.Keys, w)|)
  }

  function RecountRooms(tasks: map<Key, Time>, rooms: map<RoomId, Room>): map<RoomId, Room> {
    map r | r in rooms :: rooms[r].(connections := |InRoom(tasks.Keys, r)|)
  }

  predicate CanCollect(s: State, w: WorkerId) {
    w in s.workers && s.workers[w].connections < s.workers[w].maxRooms && s.workers[w].allowAfter < s.lastChecked
  }

  /** The test a worker must pass each time it is offered a room. */
  predicate Eligible(s: State, w: WorkerId) {
    w in s.workers && s.workers[w].connections <= s.workers[w].maxRooms && s.workers[w].remaining > 0
  }

  predicate Enabled(s: State, step: Step) {
    match step
    case Connect(w, _) => w !in s.workers
    case Hear(w, _) => w in s.workers
    case Clear(w) => w !in s.workers
    case Reset(w, _) => w in s.workers
    case Erase(w) => w in s.workers && !s.workers[w].initialized
    case Disconnect(w) => true
    case Ready(w, _) => w in s.workers && !s.workers[w].initialized
    case Fail(k, _) => k in s.tasks
    case Unassign(k, _) => k in s.tasks
    case Touch(k, _) => k in s.tasks
    case MarkEmpty(r, _) => r in s.rooms
    case Forward(k, _) => k in s.tasks
    case Deactivate(r) => r in s.rooms
    case AddRoom(r) => r !in s.rooms
    case BeginCheck(_) => true
    case Recount => true
    case Collect(w, _) => CanCollect(s, w)
    case Assign(k) =>
      k !in s.tasks && k.worker in s.available && Eligible(s, k.worker) && k.room in s.rooms && s.rooms[k.room].active
    case PurgeRoom(r) => r in s.rooms && !s.rooms[r].active && InRoom(s.tasks.Keys, r) == {}
  }

  function Apply(s: State, step: Step): State
    requires Enabled(s, step)
  {
    match step
    case Connect(w, at) => s.(workers := s.workers[w := NewWorker(at)])
    case Hear(w, at) => s.(workers := s.workers[w := s.workers[w].(lastReceived := at)])
    case Clear(w) => s.(tasks := WithoutWorker(s.tasks, w))
    case Reset(w, at) =>
      s.(tasks := WithoutWorker(s.tasks, w), workers := s.workers[w := ResetOf(s.workers[w], at)],
         available := s.available - {w})
    case Erase(w) => s.(workers := s.workers - {w}, available := s.available - {w})
    case Disconnect(w) => s
    case Ready(w, m) => s.(workers := s.workers[w := s.workers[w].(initialized := true, maxRooms := m)])
    case Fail(k, p) => RemoveTask(s, k, p)
    case Unassign(k, p) => RemoveTask(s, k, p)
    case Touch(k, at) => s.(tasks := s.tasks[k := at])
    case MarkEmpty(r, at) => s.(rooms := s.rooms[r := s.rooms[r].(lastEmptyCrc := at)])
    case Forward(_, _) => s
    case Deactivate(r) => s.(rooms := s.rooms[r := s.rooms[r].(active := false)])
    case AddRoom(r) => s.(rooms := s.rooms[r := NewRoom()])
    case BeginCheck(start) => s.(lastChecked := start, available := {})
    case Recount =>
      s.(workers := RecountWorkers(s.tasks, s.workers), rooms := RecountRooms(s.tasks, s.rooms))
    case Collect(w, quota) =>
      s.(workers := s.workers[w := s.workers[w].(punished := false, remaining := quota)],
         available := s.available + {w})
    case Assign(k) => AddTask(s, k)
    case PurgeRoom(r) => s.(rooms := s.rooms - {r})
  }

  /** The state a log leads to, if every step was enabled when it was taken. */
  datatype Outcome = Illegal | Legal(state: State)

  function Replay(log: seq<Step>): Outcome
    decreases |log|
  {
    if log == [] then Legal(INITIAL)
    else
      var n := |log| - 1;
      var before := Replay(log[..n]);
      if before.Legal? && Enabled(before.state, log[n]) then Legal(Apply(before.state, log[n])) else Illegal
  }

  lemma ReplayNext(log: seq<Step>, step: Step)
    ensures Replay(log + [step])
         == if Replay(log).Legal? && Enabled(Replay(log).state, step)
            then Legal(Apply(Replay(log).state, step)) else Illegal
  {
    assert (log + [step])[..|log|] == log;
  }

  lemma {:induction false} ReplayPrefix(log: seq<Step>, i: nat)
    requires i <= |log| && Replay(log).Legal?
    ensures Replay(log[..i]).Legal?
    ensures i < |log| ==> Enabled(Replay(log[..i]).state, log[i])
                          && Replay(log[..i + 1]) == Legal(Apply(Replay(log[..i]).state, log[i]))
    decreases |log|
  {
    if i == |log| {
      assert log[..i] == log;
    } else {
      var n := |log| - 1;
      if i < n {
        ReplayPrefix(log[..n], i);
        assert log[..n][..i] == log[..i] && log[..n][..i + 1] == log[..i + 1];
      } else {
        assert log[..i + 1] == log;
      }
    }
  }

  // ----- the invariant of every run -----

  predicate WorkerOk(w: Worker, tasks: nat) {
    && w.connections == tasks
    && w.connections <= Max(0, w.maxRooms + 1)
    && (!w.initialized ==> w.maxRooms == -1)
    && !w.punished
  }

  ghost predicate Inv(s: State) {
    && (forall k :: k in s.tasks ==> k.worker in s.workers && k.room in s.rooms)
    && (forall w :: w in s.workers ==> WorkerOk(s.workers[w], |OfWorker(s.tasks.Keys, w)|))
    && (forall r :: r in s.rooms ==> |InRoom(s.tasks.Keys, r)| <= s.rooms[r].connections)
  }

  ghost predicate RoomsExact(s: State) {
    forall r :: r in s.rooms ==> s.rooms[r].connections == |InRoom(s.tasks.Keys, r)|
  }

  lemma CountAdd(keys: set<Key>, k: Key)
    requires k !in keys
    ensures forall w :: |OfWorker(keys + {k}, w)| == |OfWorker(keys, w)| + (if w == k.worker then 1 else 0)
    ensures forall r :: |InRoom(keys + {k}, r)| == |InRoom(keys, r)| + (if r == k.room then 1 else 0)
  {
    forall w ensures |OfWorker(keys + {k}, w)| == |OfWorker(keys, w)| + (if w == k.worker then 1 else 0) {
      if w == k.worker {
        assert OfWorker(keys + {k}, w) == OfWorker(keys, w) + {k};
      } else {
        assert OfWorker(keys + {k}, w) == OfWorker(keys, w);
      }
    }
    forall r ensures |InRoom(keys + {k}, r)| == |InRoom(keys, r)| + (if r == k.room then 1 else 0) {
      if r == k.room {
        assert InRoom(keys + {k}, r) == InRoom(keys, r) + {k};
      } else {
        assert InRoom(keys + {k}, r) == InRoom(keys, r);
      }
    }
  }

  lemma CountRemove(keys: set<Key>, k: Key)
    requires k in keys
    ensures forall w :: |OfWorker(keys - {k}, w)| == |OfWorker(keys, w)| - (if w == k.worker then 1 else 0)
    ensures forall r :: |InRoom(keys - {k}, r)| == |InRoom(keys, r)| - (if r == k.room then 1 else 0)
  {
    CountAdd(keys - {k}, k);
    assert keys - {k} + {k} == keys;
  }

  lemma CountWithoutWorker(tasks: map<Key, Time>, w: WorkerId)
    ensures var left := WithoutWorker(tasks, w).Keys;
            && OfWorker(left, w) == {}
            && (forall v :: v != w ==> OfWorker(left, v) == OfWorker(tasks.Keys, v))
            && (forall r :: |InRoom(left, r)| <= |InRoom(tasks.Keys, r)|)
  {
    var left := WithoutWorker(tasks, w).Keys;
    forall v | v != w ensures OfWorker(left, v) == OfWorker(tasks.Keys, v) {
    }
    forall r ensures |InRoom(left, r)| <= |InRoom(tasks.Keys, r)| {
      assert InRoom(left, r) <= InRoom(tasks.Keys, r);
      SubsetSize(InRoom(left, r), InRoom(tasks.Keys, r));
    }
  }

  lemma SubsetSize<T>(a: set<T>, b: set<T>)
    requires a <= b
    ensures |a| <= |b|
  {
    assert b == a + (b - a);
  }

  lemma AddTaskKeeps(s: State, k: Key)
    requires Inv(s) && Enabled(s, Assign(k))
    ensures Inv(AddTask(s, k)) && (RoomsExact(s) ==> RoomsExact(AddTask(s, k)))
  {
    var keys, t := s.tasks.Keys, AddTask(s, k);
    CountAdd(keys, k);
    assert t.tasks.Keys == keys + {k};
    hide OfWorker, InRoom;
    forall w | w in t.workers ensures WorkerOk(t.workers[w], |OfWorker(keys + {k}, w)|) {
      assert WorkerOk(s.workers[w], |OfWorker(keys, w)|);
    }
    forall r | r in t.rooms ensures |InRoom(keys + {k}, r)| <= t.rooms[r].connections {
      assert |InRoom(keys, r)| <= s.rooms[r].connections;
    }
  }

  lemma RemoveTaskKeepsWorkers(s: State, k: Key, p: Penalty)
    requires Inv(s) && k in s.tasks
    ensures var t := RemoveTask(s, k, p);
            forall w :: w in t.workers ==> WorkerOk(t.workers[w], |OfWorker(t.tasks.Keys, w)|)
  {
    var keys, t := s.tasks.Keys, RemoveTask(s, k, p);
    CountRemove(keys, k);
    assert t.tasks.Keys == keys - {k};
    hide OfWorker, InRoom, Punish;
    forall w | w in t.workers ensures WorkerOk(t.workers[w], |OfWorker(keys - {k}, w)|) {
      assert WorkerOk(s.workers[w], |OfWorker(keys, w)|);
    }
  }

  lemma RemoveTaskKeepsRooms(s: State, k: Key, p: Penalty)
    requires Inv(s) && k in s.tasks
    ensures var t := RemoveTask(s, k, p);
            && (forall r :: r in t.rooms ==> |InRoom(t.tasks.Keys, r)| <= t.rooms[r].connections)
            && (RoomsExact(s) ==> RoomsExact(t))
  {
    var keys, t := s.tasks.Keys, RemoveTask(s, k, p);
    CountRemove(keys, k);
    assert t.tasks.Keys == keys - {k};
    hide OfWorker, InRoom, Punish, WorkerOk;
    forall r | r in t.rooms ensures |InRoom(keys - {k}, r)| <= t.rooms[r].connections {
      assert |InRoom(keys, r)| <= s.rooms[r].connections;
    }
  }

  lemma RemoveTaskKeeps(s: State, k: Key, p: Penalty)
    requires Inv(s) && k in s.tasks
    ensures Inv(RemoveTask(s, k, p)) && (RoomsExact(s) ==> RoomsExact(RemoveTask(s, k, p)))
  {
    hide OfWorker, InRoom, Punish, WorkerOk, RoomsExact;
    RemoveTaskKeepsWorkers(s, k, p);
    RemoveTaskKeepsRooms(s, k, p);
  }

  lemma WithoutWorkerKeeps(s: State, w: WorkerId, at: Time)
    requires Inv(s)
    ensures w !in s.workers ==> Inv(Apply(s, Clear(w)))
    ensures w in s.workers ==> Inv(Apply(s, Reset(w, at)))
  {
    CountWithoutWorker(s.tasks, w);
  }

  lemma NoTasksWhenIdle(s: State, w: WorkerId)
    requires Inv(s) && w in s.workers && !s.workers[w].initialized
    ensures OfWorker(s.tasks.Keys, w) == {}
  {
    assert WorkerOk(s.workers[w], |OfWorker(s.tasks.Keys, w)|);
  }

  lemma EraseKeeps(s: State, w: WorkerId)
    requires Inv(s) && Enabled(s, Erase(w))
    ensures Inv(Apply(s, Erase(w)))
  {
    NoTasksWhenIdle(s, w);
    forall k | k in s.tasks ensures k.worker != w {
      assert k !in OfWorker(s.tasks.Keys, w);
    }
  }

  lemma ReadyKeeps(s: State, w: WorkerId, m: int32)
    requires Inv(s) && Enabled(s, Ready(w, m))
    ensures Inv(Apply(s, Ready(w, m)))
  {
    NoTasksWhenIdle(s, w);
  }

  lemma NewOwnersHaveNoTasks(s: State)
    requires Inv(s)
    ensures forall w :: w !in s.workers ==> OfWorker(s.tasks.Keys, w) == {}
    ensures forall r :: r !in s.rooms ==> InRoom(s.tasks.Keys, r) == {}
  {
  }

  lemma PurgeKeeps(s: State, r: RoomId)
    requires Inv(s) && Enabled(s, PurgeRoom(r))
    ensures Inv(Apply(s, PurgeRoom(r))) && (RoomsExact(s) ==> RoomsExact(Apply(s, PurgeRoom(r))))
  {
    forall k | k in s.tasks ensures k.room != r {
      assert k !in InRoom(s.tasks.Keys, r);
    }
  }

  predicate DropsSilently(step: Step) {
    step.Clear? || step.Reset?
  }

  /** Every enabled step keeps the invariant, and every step but the two that drop a
      worker's tasks keeps the room counters exact. */
  lemma StepKeeps(s: State, step: Step)
    requires Inv(s) && Enabled(s, step)
    ensures Inv(Apply(s, step))
    ensures RoomsExact(s) && !DropsSilently(step) ==> RoomsExact(Apply(s, step))
    ensures step.Recount? ==> RoomsExact(Apply(s, step))
  {
    match step
    case Connect(w, at) => NewOwnersHaveNoTasks(s);
    case Clear(w) => WithoutWorkerKeeps(s, w, 0);
    case Reset(w, at) => WithoutWorkerKeeps(s, w, at);
    case Erase(w) => EraseKeeps(s, w);
    case Ready(w, m) => ReadyKeeps(s, w, m);
    case Fail(k, p) => RemoveTaskKeeps(s, k, p);
    case Unassign(k, p) => RemoveTaskKeeps(s, k, p);
    case Touch(k, at) => assert s.tasks[k := at].Keys == s.tasks.Keys;
    case AddRoom(r) => NewOwnersHaveNoTasks(s);
    case Assign(k) => AddTaskKeeps(s, k);
    case PurgeRoom(r) => PurgeKeeps(s, r);
    case _ =>
  }

  /** In every reachable state: each task belongs to a known worker and a known room; each
      worker counter is its number of tasks and at most one above its limit; a worker that
      is not ready has none; each room counter is at least its number of tasks. */
  lemma {:induction false} EveryRunKeepsInv(log: seq<Step>)
    requires Replay(log).Legal?
    ensures Inv(Replay(log).state)
    decreases |log|
  {
    if log != [] {
      var n := |log| - 1;
      EveryRunKeepsInv(log[..n]);
      StepKeeps(Replay(log[..n]).state, log[n]);
    }
  }
}
