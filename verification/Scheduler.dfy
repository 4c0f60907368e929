/** scheduler_session (src/supervisor/worker_scheduler.cpp): the handlers, over the three
    tables they mutate.

    Every message sent, every payload forwarded and every change of a table is appended to
    `log`.  `Valid` says that the log is legal and that the tables are what it leads to, so
    the theorems of SchedulerModel and SchedulerRuns hold of the object in every state. */
module Scheduler {
  import opened Bytes
  import opened Prelude
  import opened SchedulerModel
  import opened SchedulerCheck
  import opened SchedulerOutcome
  import opened SchedulerTables
  import opened SchedulerTrail
  import Wire

  datatype Event =
    | Connected(worker: WorkerId)
    | Disconnected(worker: WorkerId)
    | Payload(worker: WorkerId, bytes: seq<byte>)
    | RoomList(list: set<RoomId>)
    | Tick
    | Configured(config: Config)
    | AuthCodeChanged(code: seq<byte>)

  /** The log with the configuration; the tables are what the log leads to. */
  datatype Snapshot = Snapshot(log: seq<Step>, config: Config, authCode: seq<byte>)

  /** What an event leads to, with the readings and results of handling it. */
  ghost predicate ServedBy(event: Event, a: Snapshot, b: Snapshot, now: Time, trace: Trace) {
    && Replay(a.log).Legal? && Replay(b.log).Legal?
    && var s, t := Replay(a.log).state, Replay(b.log).state;
    && (!event.Configured? ==> b.config == a.config)
    && (!event.AuthCodeChanged? ==> b.authCode == a.authCode)
    && match event
       case Connected(w) =>
         b.log == a.log + if w in s.workers then [Reset(w, trace.at), Hear(w, now)] else [Connect(w, now)]
       case Disconnected(w) =>
         b.log == a.log + if w in s.workers then [Reset(w, trace.at), Erase(w)] else [Clear(w)]
       case Payload(w, bytes) =>
         var m := Wire.ReadPayload(bytes);
         if m.TooShort? then b.log == a.log
         else if w !in s.workers then b.log == a.log + [Clear(w), SchedulerModel.Disconnect(w)]
         else MessageHandled(a.log + [Hear(w, now)], b.log, t, a.authCode, a.config, w, now, m, trace)
       case RoomList(list) => a.log <= b.log && OnlyListing(b.log, |a.log|) && Listed(s, t, list)
       case Tick => Checked(a.log, b.log, t, trace.ran, trace.report, a.config)
       case Configured(config) => b.log == a.log && b.config == config
       case AuthCodeChanged(code) => b.log == a.log && |code| <= Wire.AUTH_CODE_SIZE && b.authCode == Wire.Padded(code)
  }

  lemma ConfigKept(event: Event, a: Snapshot, b: Snapshot, now: Time, trace: Trace)
    requires ServedBy(event, a, b, now, trace)
    ensures b.config == if event.Configured? then event.config else a.config
  {
  }

  ghost predicate Served(event: Event, a: Snapshot, b: Snapshot) {
    exists now, trace :: ServedBy(event, a, b, now, trace)
  }

  class SchedulerSession {
    var tasks: map<Key, Time>
    var workers: map<WorkerId, Worker>
    var rooms: map<RoomId, Room>
    var lastChecked: Time
    var config: Config
    var authCode: seq<byte>
    var log: seq<Step>
    ghost var available: set<WorkerId>  // workers_available of the current check, as a set

    ghost function St(): State
      reads this
    {
      State(tasks, workers, rooms, lastChecked, available)
    }

    ghost function Held(): Snapshot
      reads this
    {
      Snapshot(log, config, authCode)
    }

    ghost predicate Valid()
      reads this
    {
      |authCode| == Wire.AUTH_CODE_SIZE && Replay(log) == Legal(St())
    }

    constructor (config: Config, auth: seq<byte>)
      requires |auth| <= Wire.AUTH_CODE_SIZE
      ensures Valid() && log == [] && St() == INITIAL && this.config == config && authCode == Wire.Padded(auth)
    {
      tasks, workers, rooms, lastChecked, available, log := map[], map[], map[], 0, {}, [];
      this.config := config;
      authCode := Wire.Padded(auth);
    }

    // ----- bookkeeping -----

    /** The next step of the log has been carried out on the tables. */
    method Record(step: Step)
      requires Replay(log).Legal? && Enabled(Replay(log).state, step)
      requires St() == Apply(Replay(log).state, step) && |authCode| == Wire.AUTH_CODE_SIZE
      modifies `log
      ensures Valid() && log == old(log) + [step]
    {
      ReplayNext(log, step);
      log := log + [step];
    }

    /** std::chrono::system_clock::now(): any reading. */
    method Now() returns (t: Time) {
      t := *;
    }

    method LoadAuthCode(auth: seq<byte>)
      requires Valid() && |auth| <= Wire.AUTH_CODE_SIZE
      modifies `authCode
      ensures Valid() && authCode == Wire.Padded(auth)
    {
      authCode := Wire.Padded(auth);
    }

    method UpdateConfig(config: Config)
      requires Valid()
      modifies `config
      ensures Valid() && this.config == config
    {
      this.config := config;
    }

    // ----- workers -----

    method ClearWorkerTasks(w: WorkerId)
      modifies `tasks
      ensures tasks == WithoutWorker(old(tasks), w)
    {
      tasks := map k | k in tasks && k.worker != w :: tasks[k];
    }

    method ResetWorker(w: WorkerId) returns (at: Time)
      requires Valid() && w in workers
      modifies `tasks, `workers, `available, `log
      ensures Valid() && log == old(log) + [Reset(w, at)]
      ensures St() == Apply(old(St()), Reset(w, at))
    {
      ClearWorkerTasks(w);
      at := Now();
      var worker := workers[w];
      worker := worker.(initialized := false);
      worker := worker.(connections := 0);
      worker := worker.(maxRooms := -1);
      worker := worker.(allowAfter := at);
      worker := worker.(punished := false);
      workers := workers[w := worker];
      available := available - {w};
      Record(Reset(w, at));
    }

    method DeleteWorker(w: WorkerId) returns (at: Time)
      requires Valid() && w in workers
      modifies `tasks, `workers, `available, `log
      ensures Valid() && log == old(log) + [Reset(w, at), Erase(w)]
      ensures tasks == WithoutWorker(old(tasks), w) && workers == old(workers) - {w}
      ensures available == old(available) - {w}
    {
      at := ResetWorker(w);
      workers := workers - {w};
      Record(Erase(w));
      assert workers == old(workers) - {w};
    }

    method DeleteAndDisconnectWorker(w: WorkerId) returns (at: Time)
      requires Valid() && w in workers
      modifies `tasks, `workers, `available, `log
      ensures Valid() && log == old(log) + [Reset(w, at), Erase(w), SchedulerModel.Disconnect(w)]
      ensures tasks == WithoutWorker(old(tasks), w) && workers == old(workers) - {w}
      ensures available == old(available) - {w}
    {
      at := DeleteWorker(w);
      Record(SchedulerModel.Disconnect(w));
    }

    // ----- tasks -----

    /** delete_task; the caller accounts for it in the log. */
    method DeleteTask(k: Key, descRank: bool) returns (penalty: Penalty)
      modifies `tasks, `workers, `rooms
      ensures k !in old(tasks) ==> St() == old(St())
      ensures k in old(tasks) ==> St() == RemoveTask(old(St()), k, penalty)
      ensures penalty.Penalty? ==> descRank && penalty.length == config.workerPenaltyMin * MINUTE
      ensures k in old(tasks) && k.worker in old(workers) && descRank ==> penalty.Penalty?
    {
      penalty := NoPenalty;
      if k !in tasks {
        return;
      }
      tasks := tasks - {k};
      if k.worker in workers {
        var worker := workers[k.worker];
        if descRank {
          var now := Now();
          penalty := Penalty(now, config.workerPenaltyMin * MINUTE);
          if !worker.punished {
            worker := worker.(allowAfter := now + config.workerPenaltyMin * MINUTE);
          } else {
            worker := worker.(allowAfter := worker.allowAfter + config.workerPenaltyMin * MINUTE);
          }
        }
        workers := workers[k.worker := worker.(connections := worker.connections - 1)];
      }
      if k.room in rooms {
        rooms := rooms[k.room := rooms[k.room].(connections := rooms[k.room].connections - 1)];
      }
    }

    /** A task is deleted and the worker told so. */
    method UnassignTask(k: Key, descRank: bool) returns (penalty: Penalty)
      requires Valid() && k in tasks
      modifies `tasks, `workers, `rooms, `log
      ensures Valid() && log == old(log) + [Unassign(k, penalty)]
      ensures St() == RemoveTask(old(St()), k, penalty)
      ensures penalty.Penalty? ==> penalty.length == config.workerPenaltyMin * MINUTE
      ensures penalty.Penalty? <==> descRank
      ensures RoomsExact(old(St())) ==> RoomsExact(St())
    {
      EveryRunKeepsInv(log);
      penalty := DeleteTask(k, descRank);
      RemoveTaskKeeps(old(St()), k, penalty);
      Record(Unassign(k, penalty));
    }

    method AssignTask(w: WorkerId, r: RoomId, now: Time) returns (inserted: bool)
      requires Valid() && w in available && Eligible(St(), w) && r in rooms && rooms[r].active
      requires now == lastChecked
      modifies `tasks, `workers, `rooms, `log
      ensures Valid()
      ensures inserted <==> Key(w, r) !in old(tasks)
      ensures !inserted ==> unchanged(this)
      ensures inserted ==> log == old(log) + [Assign(Key(w, r))] && St() == AddTask(old(St()), Key(w, r))
      ensures RoomsExact(old(St())) ==> RoomsExact(St())
    {
      hide Replay, InRoom, OfWorker, RoomsExact, WorkerOk, Inv, RemoveTask, RecountRooms, RecountWorkers, WithoutWorker;
      EveryRunKeepsInv(log);
      var k := Key(w, r);
      if k in tasks {
        return false;
      }
      tasks := tasks[k := now];
      var worker, room := workers[w], rooms[r];
      worker := worker.(connections := worker.connections + 1);
      room := room.(connections := room.connections + 1);
      worker := worker.(remaining := worker.remaining - 1);
      workers, rooms := workers[w := worker], rooms[r := room];
      AddTaskKeeps(old(St()), k);
      Record(Assign(k));
      return true;
    }

    // ----- the handlers -----

    /** The rooms of the new list are present and all others inactive.  A room that is
        still waiting to be purged stays inactive although it is listed again: the list
        takes effect exactly when there was none. */
    method UpdateRoomLists(list: set<RoomId>)
      requires Valid()
      modifies `rooms, `log
      ensures Valid() && old(log) <= log && Listed(old(St()), St(), list) && OnlyListing(log, |old(log)|)
      ensures rooms.Keys == old(rooms).Keys + list
      ensures forall r :: r in rooms ==>
        (rooms[r].active <==> r in list && (r in old(rooms) ==> old(rooms)[r].active))
      ensures (forall r :: r in rooms ==> (rooms[r].active <==> r in list))
         <==> (forall r :: r in list && r in old(rooms) ==> old(rooms)[r].active)
    {
      DeactivateRooms(rooms.Keys - list);
      AddRooms(list - rooms.Keys);
      assert forall r :: r in list && r in old(rooms) ==> r in rooms && rooms[r].active == old(rooms)[r].active;
    }

    method DeactivateRooms(gone: set<RoomId>)
      requires Valid() && gone <= rooms.Keys
      modifies `rooms, `log
      ensures Valid() && old(log) <= log && rooms.Keys == old(rooms).Keys && OnlyListing(log, |old(log)|)
      ensures forall r :: r in rooms ==>
        rooms[r] == if r in gone then old(rooms)[r].(active := false) else old(rooms)[r]
    {
      hide RemoveTask, AddTask, RecountRooms, RecountWorkers, WithoutWorker, Replay, InRoom, OfWorker;
      var todo := gone;
      while todo != {}
        invariant Valid() && old(log) <= log && rooms.Keys == old(rooms).Keys && todo <= gone
        invariant OnlyListing(log, |old(log)|)
        invariant forall r :: r in rooms ==>
          rooms[r] == if r in gone && r !in todo then old(rooms)[r].(active := false) else old(rooms)[r]
        decreases |todo|
      {
        var r :| r in todo;
        todo := todo - {r};
        rooms := rooms[r := rooms[r].(active := false)];
        Record(Deactivate(r));
      }
    }

    method AddOneRoom(r: RoomId)
      requires Valid() && r !in rooms
      modifies `rooms, `log
      ensures Valid() && log == old(log) + [AddRoom(r)] && rooms == old(rooms)[r := NewRoom()]
    {
      hide RemoveTask, AddTask, RecountRooms, RecountWorkers, WithoutWorker, Replay, InRoom, OfWorker;
      rooms := rooms[r := NewRoom()];
      Record(AddRoom(r));
    }

    method AddRooms(added: set<RoomId>)
      requires Valid() && added !! rooms.Keys
      modifies `rooms, `log
      ensures Valid() && old(log) <= log && rooms.Keys == old(rooms).Keys + added && OnlyListing(log, |old(log)|)
      ensures forall r :: r in rooms ==> rooms[r] == if r in added then NewRoom() else old(rooms)[r]
    {
      hide Valid, Replay;
      var todo := added;
      while todo != {}
        invariant Valid() && old(log) <= log && todo <= added && OnlyListing(log, |old(log)|)
        invariant forall r :: r in rooms <==> r in old(rooms) || (r in added && r !in todo)
        invariant forall r :: r in rooms ==> rooms[r] == if r in added then NewRoom() else old(rooms)[r]
        decreases |todo|
      {
        var r :| r in todo;
        todo := todo - {r};
        AddOneRoom(r);
      }
    }

    method HandleNewWorker(w: WorkerId) returns (now: Time, at: Time)
      requires Valid()
      modifies `tasks, `workers, `available, `log
      ensures Valid()
      ensures log == old(log) + if w in old(workers) then [Reset(w, at), Hear(w, now)] else [Connect(w, now)]
    {
      now := Now();
      at := now;
      if w in workers {
        at := ResetWorker(w);
        workers := workers[w := workers[w].(lastReceived := now)];
        Record(Hear(w, now));
        return;
      }
      workers := workers[w := NewWorker(now)];
      Record(Connect(w, now));
    }

    method HandleWorkerDisconnect(w: WorkerId) returns (at: Time)
      requires Valid()
      modifies `tasks, `workers, `available, `log
      ensures Valid()
      ensures log == old(log) + if w in old(workers) then [Reset(w, at), Erase(w)] else [Clear(w)]
    {
      if w in workers {
        at := DeleteWorker(w);  // clears the tasks first, as the source does twice
      } else {
        at := 0;
        ClearWorkerTasks(w);
        Record(Clear(w));
      }
    }

    // ----- the periodic check, phase by phase -----

    /** Workers not heard from for too long are deleted, then tasks without data for too
        long are unassigned and their workers penalised. */
    method CheckWorkerTaskInterval() returns (now: Time, ghost gone: seq<WorkerId>, ghost swept: nat)
      requires Valid()
      modifies `tasks, `workers, `rooms, `available, `log
      ensures Valid() && old(log) <= log && available <= old(available)
      ensures SameRooms(old(rooms), rooms)
      ensures SameDuties(HeardFrom(old(workers), now, config.workerTimeoutSec * SECOND), workers)
      ensures tasks == InTime(old(St()), now, config.workerTimeoutSec * SECOND)
      ensures Spared(old(tasks), old(workers), workers, now, config.workerTimeoutSec * SECOND)
      ensures |old(log)| <= swept <= |log| && Deletions(log[..swept], |old(log)|, gone) && Distinct(gone)
      ensures forall w :: w in gone <==>
        w in old(workers) && w !in HeardFrom(old(workers), now, config.workerTimeoutSec * SECOND)
      ensures OnlyPenalties(log, swept, config.workerPenaltyMin * MINUTE)
    {
      hide Replay, Spared, Deletions, OnlyPenalties, Distinct;
      now := Now();
      gone := DeleteSilentWorkers(now);
      ghost var deleted, had, kept := log, tasks, workers;
      swept := |log|;
      UnassignSilentTasks(now);
      SparedByDeletions(old(tasks), old(workers), had, kept, workers, now, config.workerTimeoutSec * SECOND);
      assert log[..swept] == deleted;
    }

    method DeleteSilentWorkers(now: Time) returns (ghost gone: seq<WorkerId>)
      requires Valid()
      modifies `tasks, `workers, `available, `log
      ensures Valid() && old(log) <= log && available <= old(available)
      ensures workers ==
        map w | w in old(workers) && now - old(workers)[w].lastReceived <= config.workerTimeoutSec * SECOND
              :: old(workers)[w]
      ensures tasks == map k | k in old(tasks) && k.worker in workers :: old(tasks)[k]
      ensures Deletions(log, |old(log)|, gone) && Distinct(gone)
      ensures forall w :: w in gone <==> w in old(workers) && w !in workers
    {
      hide Replay, InRoom, OfWorker, Apply, Enabled, Inv, HeardSoFar, WithoutWorker, Deletions, Distinct;
      var threshold := config.workerTimeoutSec * SECOND;
      var todo := workers.Keys;
      gone := [];
      EveryRunKeepsInv(log);
      CountersInOrder(St());
      HearingStarts(workers, tasks, now, threshold);
      NobodyDeleted(log);
      while todo != {}
        invariant Valid() && old(log) <= log && available <= old(available)
        invariant HeardSoFar(old(workers), workers, old(tasks), tasks, todo, now, threshold)
        invariant Deletions(log, |old(log)|, gone) && Distinct(gone)
        invariant forall w :: w in gone <==> w in old(workers) && w !in workers
        decreases |todo|
      {
        var w :| w in todo;
        HearingStep(old(workers), workers, old(tasks), tasks, todo, now, threshold, w);
        todo := todo - {w};
        if now - workers[w].lastReceived > threshold {
          ghost var before := log;
          var at := DeleteAndDisconnectWorker(w);
          DeletionsNext(before, |old(log)|, gone, w, at);
          DistinctNext(gone, w);
          gone := gone + [w];
        }
      }
      HearingEnds(old(workers), workers, old(tasks), tasks, now, threshold);
    }

    method UnassignSilentTasks(now: Time)
      requires Valid()
      modifies `tasks, `workers, `rooms, `log
      ensures Valid() && old(log) <= log
      ensures SameRooms(old(rooms), rooms) && SameDuties(old(workers), workers)
      ensures tasks ==
        map k | k in old(tasks) && now - old(tasks)[k] < config.workerTimeoutSec * SECOND :: old(tasks)[k]
      ensures OnlyPenalties(log, |old(log)|, config.workerPenaltyMin * MINUTE)
      ensures Spared(old(tasks), old(workers), workers, now, config.workerTimeoutSec * SECOND)
    {
      hide RemoveTask, Replay, InRoom, OfWorker, Apply, Enabled, SameDuties, SameRooms, RoomsExact, Spared;
      var threshold := config.workerTimeoutSec * SECOND;
      var todo := tasks.Keys;
      SparedSelf(tasks, workers, now, threshold);
      SameDutiesSelf(workers);
      SameRoomsSelf(rooms, [], []);
      while todo != {}
        invariant Valid() && old(log) <= log && todo <= tasks.Keys
        invariant OnlyPenalties(log, |old(log)|, config.workerPenaltyMin * MINUTE)
        invariant SameRooms(old(rooms), rooms) && SameDuties(old(workers), workers)
        invariant Spared(old(tasks), old(workers), workers, now, threshold)
        invariant tasks == map k | k in old(tasks) && (k in todo || now - old(tasks)[k] < threshold) :: old(tasks)[k]
        decreases |todo|
      {
        var k :| k in todo;
        todo := todo - {k};
        if now - tasks[k] >= threshold {
          ghost var s := St();
          var penalty := UnassignTask(k, true);
          SparedNext(old(tasks), old(workers), s, k, penalty, now, threshold);
          RemovedTask(s, k, penalty);
          SameDutiesTwice(old(workers), s.workers, workers);
          SameRoomsTwice(old(rooms), s.rooms, rooms);
        }
      }
    }

    /** Recount both kinds of counters from the task table. */
    method RefreshCounts()
      requires Valid()
      modifies `workers, `rooms, `log
      ensures Valid() && log == old(log) + [Recount] && St() == Apply(old(St()), Recount)
    {
      RefreshWorkerCounts();
      RefreshRoomCounts();
      Record(Recount);
    }

    method RefreshWorkerCounts()
      modifies `workers
      ensures workers == RecountWorkers(tasks, old(workers))
    {
      var todo := workers.Keys;
      while todo != {}
        invariant todo <= workers.Keys == old(workers).Keys
        invariant forall w :: w in workers ==>
          workers[w] == if w in todo then old(workers)[w]
                        else old(workers)[w].(connections := |OfWorker(tasks.Keys, w)|)
        decreases |todo|
      {
        var w :| w in todo;
        todo := todo - {w};
        workers := workers[w := workers[w].(connections := |OfWorker(tasks.Keys, w)|)];
      }
    }

    method RefreshRoomCounts()
      modifies `rooms
      ensures rooms == RecountRooms(tasks, old(rooms))
    {
      var todo := rooms.Keys;
      while todo != {}
        invariant todo <= rooms.Keys == old(rooms).Keys
        invariant forall r :: r in rooms ==>
          rooms[r] == if r in todo then old(rooms)[r] else old(rooms)[r].(connections := |InRoom(tasks.Keys, r)|)
        decreases |todo|
      {
        var r :| r in todo;
        todo := todo - {r};
        rooms := rooms[r := rooms[r].(connections := |InRoom(tasks.Keys, r)|)];
      }
    }

    method CollectWorker(w: WorkerId)
      requires Valid() && CanCollect(St(), w)
      modifies `workers, `available, `log
      ensures Valid() && log == old(log) + [Collect(w, config.maxNewTasksPerBunch)]
      ensures workers == old(workers)[w := old(workers)[w].(punished := false, remaining := config.maxNewTasksPerBunch)]
      ensures available == old(available) + {w}
    {
      hide RemoveTask, AddTask, RecountRooms, RecountWorkers, Replay, InRoom, OfWorker, WithoutWorker;
      var worker := workers[w];
      worker := worker.(punished := false);
      worker := worker.(remaining := config.maxNewTasksPerBunch);
      workers := workers[w := worker];
      available := available + {w};
      Record(Collect(w, config.maxNewTasksPerBunch));
    }

    /** The workers that may be given tasks in this check. */
    method CollectAvailable() returns (list: seq<WorkerId>)
      requires Valid()
      modifies `workers, `available, `log
      ensures Valid() && old(log) <= log
      ensures workers.Keys == old(workers).Keys
      ensures forall w :: w in workers ==>
        workers[w] == if CanCollect(old(St()), w)
                      then old(workers)[w].(punished := false, remaining := config.maxNewTasksPerBunch)
                      else old(workers)[w]
      ensures Distinct(list) && (forall w :: w in list <==> CanCollect(old(St()), w))
      ensures forall w :: w in list ==> w in available
      ensures Collects(log, |old(log)|, list, config.maxNewTasksPerBunch)
    {
      hide Replay, Apply, Enabled, CollectedSoFar, Distinct;
      NobodyCollected(log, config.maxNewTasksPerBunch);
      hide Collects;
      ghost var s := St();
      list := [];
      var todo := workers.Keys;
      CollectStarts(s, config.maxNewTasksPerBunch);
      while todo != {}
        invariant Valid() && old(log) <= log && lastChecked == s.lastChecked
        invariant CollectedSoFar(s, workers, config.maxNewTasksPerBunch, todo, list)
        invariant forall w :: w in list ==> w in available
        invariant Collects(log, |old(log)|, list, config.maxNewTasksPerBunch)
        decreases |todo|
      {
        var w :| w in todo;
        CollectStep(s, workers, config.maxNewTasksPerBunch, todo, list, w);
        todo := todo - {w};
        if workers[w].connections < workers[w].maxRooms && workers[w].allowAfter < lastChecked {
          CollectsNext(log, |old(log)|, list, config.maxNewTasksPerBunch, w);
          list := list + [w];
          CollectWorker(w);
        }
      }
      CollectEnds(s, workers, config.maxNewTasksPerBunch, list);
    }

    /** Sorts workers so that those with most room come first. */
    method SortWorkers(list: seq<WorkerId>) returns (sorted: seq<WorkerId>)
      requires Distinct(list) && forall w :: w in list ==> w in workers
      ensures |sorted| == |list| && Distinct(sorted) && (forall w :: w in sorted <==> w in list)
      ensures FreestFirst(workers, sorted)
    {
      sorted := Sort(list, map w | w in workers :: workers[w].connections - workers[w].maxRooms);
    }

    method SortRooms(list: seq<RoomId>) returns (sorted: seq<RoomId>)
      requires Distinct(list) && forall r :: r in list ==> r in rooms
      ensures |sorted| == |list| && Distinct(sorted) && (forall r :: r in sorted <==> r in list)
      ensures FewestFirst(rooms, sorted)
    {
      sorted := Sort(list, map r | r in rooms :: rooms[r].connections);
    }

    method CalculateMaxWorkersPerRoom(roomCount: nat) returns (n: int)
      ensures n == if roomCount == 0 then 0 else TruncDiv(TotalMaxRooms(workers), roomCount) + 1
    {
      if roomCount == 0 {
        return 0;
      }
      var sum, rest := 0, workers;
      while rest != map[]
        invariant sum + TotalMaxRooms(rest) == TotalMaxRooms(workers)
        invariant forall w :: w in rest ==> w in workers && rest[w] == workers[w]
        decreases |rest|
      {
        var w :| w in rest;
        TotalWithout(rest, w);
        sum := sum + rest[w].maxRooms;
        assert w !in rest - {w} && w in rest;
        SmallerMap(rest, w);
        rest := rest - {w};
      }
      return TruncDiv(sum, roomCount) + 1;
    }

    /** Deletes inactive rooms with all their tasks; the workers are told, and penalised.
        Returns the rooms left and their least task count. */
    method PurgeInactiveRooms() returns (pending: seq<RoomId>, minimum: int)
      requires Valid() && RoomsExact(St())
      modifies `tasks, `workers, `rooms, `log
      ensures Valid() && RoomsExact(St()) && old(log) <= log
      ensures rooms == map r | r in old(rooms) && old(rooms)[r].active :: old(rooms)[r]
      ensures tasks == map k | k in old(tasks) && k.room in rooms :: old(tasks)[k]
      ensures SameDuties(old(workers), workers)
      ensures Distinct(pending) && forall r :: r in pending <==> r in rooms
      ensures IsMinimum(rooms, pending, minimum)
      ensures OnlyPurges(log, |old(log)|, InactiveRooms(old(rooms)), config.workerPenaltyMin * MINUTE)
    {
      hide Replay, Apply, Enabled, RemoveTask, AddTask, InRoom, OfWorker, RoomsExact, WorkerOk, Inv, SameDuties;
      hide IsMinimum, PurgedSoFar, Distinct;
      EveryRunKeepsInv(log);
      CountersInOrder(St());
      SameDutiesSelf(workers);
      pending, minimum := [], NO_MINIMUM;
      NoMinimumYet(rooms);
      var todo := rooms.Keys;
      PurgeStarts(rooms, tasks);
      while todo != {}
        invariant Valid() && RoomsExact(St()) && old(log) <= log
        invariant OnlyPurges(log, |old(log)|, InactiveRooms(old(rooms)), config.workerPenaltyMin * MINUTE)
        invariant PurgedSoFar(old(rooms), rooms, old(tasks), tasks, todo, pending)
        invariant SameDuties(old(workers), workers) && IsMinimum(old(rooms), pending, minimum)
        decreases |todo|
      {
        var r :| r in todo;
        PurgeStep(old(rooms), rooms, old(tasks), tasks, todo, pending, r);
        todo := todo - {r};
        if rooms[r].active {
          MinimumNext(old(rooms), pending, minimum, r);
          minimum := Min(minimum, rooms[r].connections);
          pending := pending + [r];
        } else {
          ghost var before, first := workers, log;
          PurgeRoomAndTasks(r);
          SameDutiesTwice(old(workers), before, workers);
          PurgesTwice(first, log, |old(log)|, r, InactiveRooms(old(rooms)), config.workerPenaltyMin * MINUTE);
        }
      }
      PurgeEnds(old(rooms), rooms, old(tasks), tasks, pending);
      MinimumOfSame(old(rooms), rooms, pending, minimum);
    }

    method PurgeRoomAndTasks(r: RoomId)
      requires Valid() && RoomsExact(St()) && r in rooms && !rooms[r].active
      modifies `tasks, `workers, `rooms, `log
      ensures Valid() && RoomsExact(St()) && old(log) <= log
      ensures rooms == old(rooms) - {r} && SameDuties(old(workers), workers)
      ensures OnlyPurges(log, |old(log)|, {r}, config.workerPenaltyMin * MINUTE)
      ensures tasks == map k | k in old(tasks) && k.room != r :: old(tasks)[k]
    {
      hide Replay, RemoveTask, AddTask, OfWorker, RecountRooms, RecountWorkers, WithoutWorker;
      PurgeTasks(r);
      EveryRunKeepsInv(log);
      assert InRoom(tasks.Keys, r) == {};
      PurgeKeeps(St(), r);
      ErasePurged(r);
    }

    method ErasePurged(r: RoomId)
      requires Valid() && Enabled(St(), PurgeRoom(r))
      modifies `rooms, `log
      ensures Valid() && log == old(log) + [PurgeRoom(r)] && rooms == old(rooms) - {r}
      ensures St() == Apply(old(St()), PurgeRoom(r))
    {
      hide Replay, RemoveTask, AddTask, OfWorker, RecountRooms, RecountWorkers, WithoutWorker;
      rooms := rooms - {r};
      Record(PurgeRoom(r));
    }

    /** Every task of the room is unassigned. */
    method PurgeTasks(r: RoomId)
      requires Valid() && RoomsExact(St()) && r in rooms
      modifies `tasks, `workers, `rooms, `log
      ensures Valid() && RoomsExact(St()) && old(log) <= log
      ensures SameRooms(old(rooms), rooms) && SameDuties(old(workers), workers)
      ensures OnlyPurges(log, |old(log)|, {r}, config.workerPenaltyMin * MINUTE)
      ensures forall q :: q in rooms && q != r ==> rooms[q] == old(rooms)[q]
      ensures tasks == map k | k in old(tasks) && k.room != r :: old(tasks)[k]
    {
      hide Replay, RemoveTask, AddTask, OfWorker, Apply, Enabled;
      var todo := InRoom(tasks.Keys, r);
      hide InRoom, RoomsExact, SameDuties, SameRooms, OnlyLeft;
      SameDutiesSelf(workers);
      SameRoomsSelf(rooms, [], []);
      OnlyLeftStarts(tasks, r);
      while todo != {}
        invariant Valid() && RoomsExact(St()) && old(log) <= log && OnlyLeft(old(tasks), tasks, r, todo)
        invariant OnlyPurges(log, |old(log)|, {r}, config.workerPenaltyMin * MINUTE)
        invariant SameRooms(old(rooms), rooms) && SameDuties(old(workers), workers) && rooms.Keys == old(rooms).Keys
        invariant forall q :: q in rooms && q != r ==> rooms[q] == old(rooms)[q]
        decreases |todo|
      {
        var k :| k in todo;
        OnlyLeftNext(old(tasks), tasks, r, todo, k);
        todo := todo - {k};
        ghost var s := St();
        var penalty := UnassignTask(k, true);
        RemovedTask(s, k, penalty);
        SameDutiesTwice(old(workers), s.workers, workers);
        SameRoomsTwice(old(rooms), s.rooms, rooms);
      }
      OnlyLeftEnds(old(tasks), tasks, r);
    }

    /** Erases the workers at position i that cannot take any task now. */
    method EraseIneligible(r: RoomId, ghost list: seq<WorkerId>, from: seq<WorkerId>, i: nat, ghost m: nat)
      returns (left: seq<WorkerId>, ghost n: nat)
      requires (forall w :: w in list ==> w in workers) && Searching(St(), r, list, m, from, i) && m < |list|
      ensures m <= n && Searching(St(), r, list, n, left, i)
      ensures n < |list| ==> Eligible(St(), list[n])
      ensures n == |list| ==> !Eligible(St(), list[n - 1])
    {
      hide Scanned, Searching;
      left, n := from, m;
      SearchPosition(St(), r, list, n, left, i);
      while i < |left| && (workers[left[i]].connections > workers[left[i]].maxRooms || workers[left[i]].remaining <= 0)
        invariant m <= n <= |list| && Searching(St(), r, list, n, left, i)
        invariant (n < |list| <==> i < |left|) && (n < |list| ==> left[i] == list[n])
        invariant n > m ==> !Eligible(St(), list[n - 1])
        decreases |list| - n
      {
        assert list[n] in list && !Eligible(St(), list[n]);
        SearchErases(St(), r, list, n, left, i);
        left := left[..i] + left[i + 1..];
        n := n + 1;
        SearchPosition(St(), r, list, n, left, i);
      }
    }

    /** One turn of the search loop: ineligible workers at position i are erased, and the
        room is offered to the next one, if there is one. */
    method OfferRoom(r: RoomId, ghost list: seq<WorkerId>, from: seq<WorkerId>, i: nat, ghost m: nat)
      returns (left: seq<WorkerId>, taken: bool, ghost n: nat)
      requires Valid() && r in rooms && rooms[r].active
      requires forall w :: w in list ==> w in available && w in workers
      requires Searching(St(), r, list, m, from, i) && m < |list|
      modifies `tasks, `workers, `rooms, `log
      ensures Valid() && (RoomsExact(old(St())) ==> RoomsExact(St()))
      ensures m <= n <= |list| && Searching(old(St()), r, list, n, left, i)
      ensures n == |list| ==> !taken && i == |left| && !Eligible(old(St()), list[n - 1])
      ensures n < |list| ==> i < |left| && left[i] == list[n] && Eligible(old(St()), list[n])
      ensures n < |list| ==> (taken <==> Key(list[n], r) !in old(tasks))
      ensures if taken then St() == AddTask(old(St()), Key(list[n], r)) && log == old(log) + [Assign(Key(list[n], r))]
              else unchanged(this)
    {
      hide Replay, AddTask, Apply, Enabled, Scanned, Searching, RoomsExact, Valid, Eligible;
      left, n := EraseIneligible(r, list, from, i, m);
      SearchPosition(St(), r, list, n, left, i);
      taken := false;
      if i < |left| {
        taken := AssignTask(left[i], r, lastChecked);
      }
    }

    /** The search for a worker that can take the room, over a list it thins out.  `open`
        says that the room is then looked at for surplus tasks. */
    method AssignRoom(r: RoomId, list: seq<WorkerId>)
      returns (left: seq<WorkerId>, who: Option<WorkerId>, open: bool)
      requires Valid() && r in rooms && rooms[r].active
      requires forall w :: w in list ==> w in available && w in workers
      modifies `tasks, `workers, `rooms, `log
      ensures Valid() && (RoomsExact(old(St())) ==> RoomsExact(St()))
      ensures SearchResult(old(St()), r, list, left, who, open)
      ensures who == None ==> unchanged(this)
      ensures who.Some? ==>
        && who.value in list && Takes(old(St()), r, who.value)
        && St() == AddTask(old(St()), Key(who.value, r)) && log == old(log) + [Assign(Key(who.value, r))]
    {
      ghost var s, m := St(), 0;  // the first m workers of the given list have been looked at
      left := list;
      var i := 0;
      hide Replay, AddTask, Apply, Enabled, Scanned, Searching, RoomsExact, SearchResult, Valid, Eligible;
      SearchStarts(s, r, list);
      SearchPosition(s, r, list, m, left, i);
      while i < |left|
        invariant unchanged(this)
        invariant m <= |list| && Searching(s, r, list, m, left, i) && (m < |list| <==> i < |left|)
        invariant m > 0 ==> Eligible(s, list[m - 1])
        decreases |list| - m
      {
        var taken;
        left, taken, m := OfferRoom(r, list, left, i, m);
        SearchPosition(s, r, list, m, left, i);
        SearchEnds(s, r, list, m, left, i);
        if i == |left| || taken {
          return left, if taken then Some(left[i]) else None, false;
        }
        SearchPasses(s, r, list, m, left, i);
        i := i + 1;
        m := m + 1;
        SearchPosition(s, r, list, m, left, i);
      }
      SearchEnds(s, r, list, m, left, i);
      return left, None, true;
    }

    /** One task is unassigned without a penalty. */
    method CutTask(k: Key)
      requires Valid() && RoomsExact(St()) && k in tasks && k.room in rooms
      modifies `tasks, `workers, `rooms, `log
      ensures Valid() && RoomsExact(St()) && log == old(log) + [Unassign(k, NoPenalty)]
      ensures tasks == old(tasks) - {k} && SameDuties(old(workers), workers) && SameRooms(old(rooms), rooms)
      ensures forall q :: q in rooms && q != k.room ==> rooms[q] == old(rooms)[q]
      ensures rooms[k.room].connections == old(rooms)[k.room].connections - 1
    {
      hide Replay, RemoveTask, AddTask, OfWorker, InRoom, Apply, Enabled, RoomsExact;
      RemovedTaskAnyPenalty(St(), k);
      RemovedOneOfRoom(St(), k);
      var penalty := UnassignTask(k, false);
    }

    /** Cuts tasks of one room, at most as many as are too many and as are allowed. */
    method CutTasks(r: RoomId, overkill: nat, allowed: nat) returns (left: nat)
      requires Valid() && RoomsExact(St()) && r in rooms && overkill <= rooms[r].connections
      modifies `tasks, `workers, `rooms, `log
      ensures Valid() && RoomsExact(St()) && old(log) <= log && OnlyCuts(log, |old(log)|, r)
      ensures SameRooms(old(rooms), rooms) && SameDuties(old(workers), workers)
      ensures forall q :: q in rooms && q != r ==> rooms[q] == old(rooms)[q]
      ensures forall k: Key :: k.room != r ==> (k in tasks <==> k in old(tasks))
      ensures forall k :: k in tasks ==> k in old(tasks)
      ensures var n := Min(overkill, allowed);
              && left == allowed - n && rooms[r].connections == old(rooms)[r].connections - n
              && |log| == |old(log)| + n
    {
      hide Valid, RoomsExact, InRoom, SameDuties, SameRooms, Replay;
      left := allowed;
      var i := 0;
      var victims := InRoom(tasks.Keys, r);
      VictimsCounted(St(), r);
      SameDutiesSelf(workers);
      SameRoomsSelf(rooms, [], []);
      while i < overkill && victims != {} && left > 0
        invariant Valid() && RoomsExact(St()) && old(log) <= log && OnlyCuts(log, |old(log)|, r)
        invariant SameRooms(old(rooms), rooms) && SameDuties(old(workers), workers)
        invariant r in rooms && rooms.Keys == old(rooms).Keys
        invariant forall q :: q in rooms && q != r ==> rooms[q] == old(rooms)[q]
        invariant forall k: Key :: k.room != r ==> (k in tasks <==> k in old(tasks))
        invariant forall k :: k in tasks ==> k in old(tasks)
        invariant forall k :: k in victims <==> k in tasks && k.room == r
        invariant 0 <= i <= overkill && i + left == allowed && |log| == |old(log)| + i
        invariant |victims| == rooms[r].connections == old(rooms)[r].connections - i
        decreases |victims|
      {
        var k :| k in victims;
        victims := victims - {k};
        ghost var was, before := rooms, workers;
        CutTask(k);
        SameDutiesTwice(old(workers), before, workers);
        SameRoomsTwice(old(rooms), was, rooms);
        i, left := i + 1, left - 1;
      }
    }

    /** Unassigns surplus tasks of one room, while disconnects are allowed. */
    method TrimRoom(r: RoomId, ceiling: int, minimum: int, allowed: nat) returns (left: nat)
      requires Valid() && RoomsExact(St()) && r in rooms && 1 <= ceiling && 0 <= minimum
      modifies `tasks, `workers, `rooms, `log
      ensures Valid() && RoomsExact(St()) && old(log) <= log && OnlyCuts(log, |old(log)|, r)
      ensures SameRooms(old(rooms), rooms) && SameDuties(old(workers), workers)
      ensures forall q :: q in rooms && q != r ==> rooms[q] == old(rooms)[q]
      ensures forall k: Key :: k.room != r ==> (k in tasks <==> k in old(tasks))
      ensures forall k :: k in tasks ==> k in old(tasks)
      ensures var n := Min(Max(0, Surplus(old(rooms)[r].connections, ceiling, minimum)), allowed);
              && left == allowed - n && rooms[r].connections == old(rooms)[r].connections - n
              && |log| == |old(log)| + n
    {
      hide Replay, InRoom, RoomsExact, Valid, SameDuties, SameRooms;
      VictimsCounted(St(), r);
      SameDutiesSelf(workers);
      SameRoomsSelf(rooms, [], []);
      var overkill := rooms[r].connections - ceiling;
      overkill := Max(overkill, rooms[r].connections - minimum - 1);
      left := allowed;
      if overkill > 0 && allowed > 0 {
        left := CutTasks(r, overkill, allowed);
      }
    }

    /** One room's turn. */
    method TakeTurn(r: RoomId, list: seq<WorkerId>, ceiling: int, minimum: int, allowed: nat)
      returns (rest: seq<WorkerId>, left: nat, ghost turn: Turn)
      requires Valid() && RoomsExact(St()) && r in rooms && rooms[r].active && 1 <= ceiling && 0 <= minimum
      requires forall w :: w in list ==> w in available && w in workers
      modifies `tasks, `workers, `rooms, `log
      ensures Valid() && RoomsExact(St()) && old(log) <= log
      ensures SameRooms(old(rooms), rooms) && workers.Keys == old(workers).Keys
      ensures forall q :: q in rooms && q != r ==> rooms[q] == old(rooms)[q]
      ensures forall k: Key :: k.room != r ==> (k in tasks <==> k in old(tasks))
      ensures turn.room == r && turn.at == |old(log)| && turn.offered == list
      ensures turn.before == old(rooms)[r].connections
      ensures TurnDecides(old(St()), turn, ceiling, minimum, allowed) && TurnLogged(log, turn)
      ensures rest == OfferedNext(old(St()), turn, ceiling) && left == allowed - turn.trimmed
      ensures rooms[r].connections == AfterTurn(turn)
      ensures forall w :: w in workers ==>
        workers[w].remaining == old(workers)[w].remaining - (if turn.gained == Some(w) then 1 else 0)
      ensures turn.gained.Some? ==> turn.gained.value in list && old(workers)[turn.gained.value].remaining > 0
      ensures forall k :: k in tasks ==> k in old(tasks) || (turn.gained.Some? && k == Key(turn.gained.value, r))
    {
      hide Replay, RemoveTask, AddTask, Apply, Enabled, RoomsExact, WorkerOk, Inv, Scanned, FirstFit, InRoom, OfWorker;
      ghost var s := St();
      rest, left := list, allowed;
      var who, open := None, true;
      if ceiling > rooms[r].connections {
        rest, who, open := AssignRoom(r, list);
        if who.Some? {
          AddedTask(s, Key(who.value, r));
        }
      }
      if open {
        left := TrimRoom(r, ceiling, minimum, allowed);
      }
      turn := Turn(r, |old(log)|, list, s.rooms[r].connections, who, allowed - left);
    }

    /** All rooms take their turns, those with fewest tasks first. */
    method TakeTurns(order: seq<RoomId>, list: seq<WorkerId>, ceiling: int, minimum: int)
      returns (ghost turns: seq<Turn>)
      requires Valid() && RoomsExact(St()) && 1 <= ceiling && 0 <= minimum
      requires Distinct(order) && forall r :: r in order ==> r in rooms && rooms[r].active
      requires forall w :: w in list ==> w in available && w in workers
      modifies `tasks, `workers, `rooms, `log
      ensures Valid() && RoomsExact(St()) && old(log) <= log
      ensures SameRooms(old(rooms), rooms) && workers.Keys == old(workers).Keys
      ensures forall k: Key :: k.room !in order ==> (k in tasks <==> k in old(tasks))
      ensures TurnsTaken(old(rooms), rooms, order, turns) && TurnsFollow(log, turns, ceiling, minimum)
      ensures TurnsLogged(log, |old(log)|, turns)
      ensures turns != [] ==> turns[0].offered == list
      ensures forall w :: w in workers ==> WithinQuota(old(workers)[w].remaining, Gained(turns, w))
      ensures forall w :: Gained(turns, w) > 0 ==> w in list
      ensures forall k :: k in tasks ==> k in old(tasks) || GivenTo(turns, k)
    {
      hide Replay, Apply, Enabled, RoomsExact, AddTask, TurnsFollow, OfferedAfter, TurnDecides, OfferedNext;
      hide TurnsTaken, AfterTurn, GivenTo, GainsPaid, Gained, Trimmed, TurnLogged;
      GainsStart(workers, list);
      SameRoomsSelf(rooms, [], []);
      turns := [];
      var rest := list;
      var left: nat := MAX_DISCONNECTS;
      NoTurnsYet(log, ceiling, minimum, list);
      hide TurnsLogged;
      for i := 0 to |order|
        invariant Valid() && RoomsExact(St()) && old(log) <= log
        invariant SameRooms(old(rooms), rooms) && workers.Keys == old(workers).Keys
        invariant forall k: Key :: k.room !in order ==> (k in tasks <==> k in old(tasks))
        invariant TurnsTaken(old(rooms), rooms, order[..i], turns)
        invariant forall j :: i <= j < |order| ==> rooms[order[j]] == old(rooms)[order[j]]
        invariant TurnsFollow(log, turns, ceiling, minimum) && OfferedAfter(log, turns, ceiling, list, rest)
        invariant TurnsLogged(log, |old(log)|, turns)
        invariant turns != [] ==> turns[0].offered == list
        invariant turns == [] ==> rest == list
        invariant left + Trimmed(turns) == MAX_DISCONNECTS
        invariant forall w :: w in rest ==> w in list && w in available && w in workers
        invariant forall k :: k in tasks ==> k in old(tasks) || GivenTo(turns, k)
        invariant GainsPaid(old(workers), workers, list, turns)
      {
        ghost var s, before, was, paid := St(), log, rooms, workers;
        ghost var turn;
        rest, left, turn := TakeTurn(order[i], rest, ceiling, minimum, left);
        TurnsLoggedNext(before, log, |old(log)|, turns, turn);
        TurnsFollowNext(before, log, turns, turn, ceiling, minimum, list, s);
        OfferedNextMembers(s, turn, ceiling);
        TurnsTakenNext(old(rooms), was, rooms, order, i, turns, turn);
        GainsPaidNext(old(workers), paid, workers, list, turns, turn);
        GivenToNext(turns, turn);
        turns := turns + [turn];
      }
      assert order[..|order|] == order;
      GainsMeans(old(workers), workers, list, turns);
    }

    /** check_all_states: does nothing if the last check is too recent. */
    method CheckAllStates() returns (ran: bool, ghost report: Report)
      requires Valid()
      modifies `tasks, `workers, `rooms, `lastChecked, `available, `log
      ensures Valid() && old(log) <= log && Checked(old(log), log, St(), ran, report, config)
      ensures ran <==> report.start - old(lastChecked) >= config.minCheckIntervalMsec
      ensures !ran ==> log == old(log) && St() == old(St())
    {
      hide Replay, Apply, Enabled, CheckDone;
      var now := Now();
      ran := now - lastChecked >= config.minCheckIntervalMsec;
      report := NoReport(now);
      if ran {
        report := RunCheck(now);
      }
    }

    method RunCheck(now: Time) returns (ghost report: Report)
      requires Valid()
      modifies `tasks, `workers, `rooms, `lastChecked, `available, `log
      ensures Valid() && old(log) <= log && report.start == now
      ensures CheckDone(old(log), old(St()), St(), log, report, config)
    {
      hide Replay, Enabled, Apply, InRoom, OfWorker, SameDuties, SameRooms, RoomsExact, CheckDone, InTime, HeardFrom;
      hide ListFits, Prepared, CheckLogged, TurnsLogged, OnlyPurges;
      ghost var s0, log0 := St(), log;
      var list;
      report, list := PrepareCheck(now);
      ghost var s3, log3, first := St(), log, report;
      ghost var minimum, ceiling, order, turns, purged;
      ceiling, minimum, order, turns, purged := Rebalance(list);
      report := report.(purged := purged, ceiling := ceiling, minimum := minimum, order := order, turns := turns);
      ListFitsLater(s0, log3, log, first, config.workerTimeoutSec * SECOND);
      ListOfSame(s0, log, first, report, config.workerTimeoutSec * SECOND);
      CheckLoggedFrom(s0, s3, log0, log3, log, first, report, config);
      CheckAssembled(log0, s0, s3, St(), log, report, config);
    }

    /** The first half of a check: timeouts, recount, and the list of workers. */
    method PrepareCheck(now: Time) returns (ghost report: Report, list: seq<WorkerId>)
      requires Valid()
      modifies `tasks, `workers, `rooms, `lastChecked, `available, `log
      ensures Valid() && RoomsExact(St()) && old(log) <= log && lastChecked == now
      ensures report.start == now && report.list == list
      ensures ListFits(old(St()), log, report, config.workerTimeoutSec * SECOND)
      ensures Prepared(old(St()), old(log), log, report, config)
      ensures tasks == InTime(old(St()), report.sweep, config.workerTimeoutSec * SECOND)
      ensures SameLimits(HeardFrom(old(workers), report.sweep, config.workerTimeoutSec * SECOND), workers)
      ensures SameRooms(old(rooms), rooms)
      ensures forall w :: w in list ==>
        w in workers && w in available && workers[w].remaining == config.maxNewTasksPerBunch
    {
      hide Replay, Enabled, InRoom, OfWorker, RoomsExact, FreestFirst, Inv, Distinct, RemoveTask, AddTask;
      hide SameDuties, SameRooms, RecountRooms, RecountWorkers, Spared, InTime, HeardFrom, WithoutWorker;
      hide Deletions, OnlyPenalties, Collects, Prepared;
      ghost var s0, log0 := St(), log;
      ghost var timeout := config.workerTimeoutSec * SECOND;
      BeginChecking(now);
      ghost var begun, log1 := St(), log;
      var sweep;
      ghost var gone, swept;
      sweep, gone, swept := CheckWorkerTaskInterval();
      ghost var s1, log2 := St(), log;
      InTimeSame(s0, begun, sweep, timeout);
      EveryRunKeepsInv(log);
      StepKeeps(s1, Recount);
      RefreshCounts();
      ghost var s2, log3 := St(), log;
      var collected := CollectAvailable();
      list := SortWorkers(collected);
      ExactSame(s2, St());
      RoomsCounted(s0.rooms, s1);
      report := Report(now, sweep, gone, swept, |log3|, collected, list, |log|, 0, 0, 0, [], []);
      FreestSame(workers, s2.workers, list);
      ListAssembled(s0, s1, s2, log3, log, report, timeout);
      PreparedFrom(s0, log0, log1, log2, log3, log, report, config);
    }

    /** The second half: the ceiling, the purge of inactive rooms, and the turns. */
    method Rebalance(list: seq<WorkerId>)
      returns (ceiling: int, minimum: int, order: seq<RoomId>, ghost turns: seq<Turn>, ghost purged: nat)
      requires Valid() && RoomsExact(St())
      requires forall w :: w in list ==>
        w in workers && w in available && workers[w].remaining == config.maxNewTasksPerBunch
      modifies `tasks, `workers, `rooms, `log
      ensures Valid() && RoomsExact(St()) && old(log) <= log && workers.Keys == old(workers).Keys
      ensures ceiling == Ceiling(old(workers), |old(rooms)|)
      ensures rooms.Keys == (set r | r in old(rooms) && old(rooms)[r].active)
      ensures Distinct(order) && forall r :: r in order <==> r in rooms
      ensures TurnsFit(old(tasks), tasks, order, turns, minimum) && TurnsFollow(log, turns, ceiling, minimum)
      ensures |old(log)| <= purged <= |log| && TurnsLogged(log, purged, turns)
      ensures OnlyPurges(log[..purged], |old(log)|, InactiveRooms(old(rooms)), config.workerPenaltyMin * MINUTE)
      ensures turns != [] ==> turns[0].offered == list
      ensures forall w :: w in workers ==> WithinQuota(config.maxNewTasksPerBunch, Gained(turns, w))
      ensures forall k :: k in tasks ==> k.room in rooms && (k in old(tasks) || GivenTo(turns, k))
    {
      hide Replay, Enabled, Apply, InRoom, OfWorker, RoomsExact, FewestFirst, Inv, Distinct, SameDuties, SameRooms;
      hide TurnsFit, TurnsTaken, TurnsFollow, IsMinimum, GivenTo, Gained, TurnsLogged, OnlyPurges;
      ghost var rooms3 := rooms;
      var perRoom := CalculateMaxWorkersPerRoom(|rooms|);
      ceiling := Max(1, Max(perRoom, |workers|));
      order, minimum := PurgeInactiveRooms();
      MinimumBounds(rooms, order, minimum);
      ghost var s4, log4, unsorted := St(), log, order;
      purged := |log|;
      order := SortRooms(order);
      SameDutiesMeans(old(workers), s4.workers);
      turns := TakeTurns(order, list, ceiling, minimum);
      assert log[..purged] == log4;
      SameRoomsMeans(s4.rooms, rooms);
      CountsBeforeTurns(old(tasks), s4);
      TurnsReported(old(tasks), s4, St(), order, unsorted, turns, minimum);
      QuotasReported(s4.workers, list, turns, config.maxNewTasksPerBunch);
      EveryRunKeepsInv(log);
      CountersInOrder(St());
    }

    method BeginChecking(now: Time)
      requires Valid()
      modifies `lastChecked, `available, `log
      ensures Valid() && log == old(log) + [BeginCheck(now)] && lastChecked == now && available == {}
    {
      lastChecked := now;
      available := {};
      Record(BeginCheck(now));
    }

    // ----- messages of workers -----

    /** A payload from a worker. */
    method HandleBuffer(w: WorkerId, payload: seq<byte>) returns (now: Time, ghost trace: Trace)
      requires Valid()
      modifies `tasks, `workers, `rooms, `lastChecked, `available, `log
      ensures Valid() && old(log) <= log
      ensures var m := Wire.ReadPayload(payload);
              if m.TooShort? then unchanged(this)
              else if w !in old(workers) then log == old(log) + [Clear(w), SchedulerModel.Disconnect(w)]
              else MessageHandled(old(log) + [Hear(w, now)], log, St(), authCode, config, w, now, m, trace)
    {
      hide Replay, Enabled, Apply, MessageHandled, Wire.ReadPayload, CheckDone;
      now := 0;
      trace := NoTrace();
      var m := Wire.ReadPayload(payload);
      if !m.TooShort? {
        Wire.ReadyAuthSize(payload);
        if w in workers {
          now, trace := HandleKnownWorker(w, m);
        } else {
          HandleUnknownWorker(w);
        }
      }
    }

    method HandleUnknownWorker(w: WorkerId)
      requires Valid() && w !in workers
      modifies `tasks, `log
      ensures Valid() && log == old(log) + [Clear(w), SchedulerModel.Disconnect(w)]
    {
      ClearWorkerTasks(w);
      Record(Clear(w));
      Record(SchedulerModel.Disconnect(w));
    }

    method HandleKnownWorker(w: WorkerId, m: Wire.Incoming) returns (now: Time, ghost trace: Trace)
      requires Valid() && w in workers && !m.TooShort? && (m.Ready? ==> |m.auth| in {0, Wire.AUTH_CODE_SIZE})
      modifies `tasks, `workers, `rooms, `lastChecked, `available, `log
      ensures Valid() && old(log) <= log
      ensures MessageHandled(old(log) + [Hear(w, now)], log, St(), authCode, config, w, now, m, trace)
    {
      hide Replay, Enabled, Apply, CheckDone, Checked, StepsOfData;
      now := HearWorker(w);
      trace := NoTrace();
      match m {
        case Ready(maxRooms, auth) => trace := HandleReady(w, maxRooms, auth);
        case Failed(room) => trace := HandleFailed(Key(w, room));
        case Data(room, _, _, _) => HandleData(Key(w, room), m, now);
        case _ =>
      }
    }

    method HearWorker(w: WorkerId) returns (now: Time)
      requires Valid() && w in workers
      modifies `workers, `log
      ensures Valid() && log == old(log) + [Hear(w, now)]
      ensures workers == old(workers)[w := old(workers)[w].(lastReceived := now)]
    {
      now := Now();
      workers := workers[w := workers[w].(lastReceived := now)];
      Record(Hear(w, now));
    }

    /** Without the right code the worker is deleted; otherwise it starts afresh. */
    method HandleReady(w: WorkerId, maxRooms: int32, auth: seq<byte>) returns (ghost trace: Trace)
      requires Valid() && w in workers && |auth| in {0, Wire.AUTH_CODE_SIZE}
      modifies `tasks, `workers, `rooms, `lastChecked, `available, `log
      ensures Valid() && old(log) <= log
      ensures if auth == [] || !Wire.SamePrefix(authCode, auth, Wire.AUTH_CODE_SIZE)
              then log == old(log) + [Reset(w, trace.at), Erase(w), SchedulerModel.Disconnect(w)]
              else Checked(old(log) + [Reset(w, trace.at), Ready(w, maxRooms)], log, St(),
                           trace.ran, trace.report, config)
    {
      hide Replay, CheckDone, Wire.SamePrefix;
      trace := NoTrace();
      if auth == [] || !Wire.SamePrefix(authCode, auth, Wire.AUTH_CODE_SIZE) {
        ghost var at := DeleteAndDisconnectWorker(w);
        trace := trace.(at := at);
      } else {
        ghost var at := RestartWorker(w, maxRooms);
        var ran, report := CheckAllStates();
        trace := trace.(at := at, ran := ran, report := report);
      }
    }

    method RestartWorker(w: WorkerId, maxRooms: int32) returns (at: Time)
      requires Valid() && w in workers
      modifies `tasks, `workers, `available, `log
      ensures Valid() && log == old(log) + [Reset(w, at), Ready(w, maxRooms)]
    {
      hide Replay, RemoveTask, AddTask, RecountRooms, RecountWorkers, InRoom, OfWorker;
      at := ResetWorker(w);
      workers := workers[w := workers[w].(initialized := true)];
      workers := workers[w := workers[w].(maxRooms := maxRooms)];
      Record(Ready(w, maxRooms));
      assert log == old(log) + [Reset(w, at), Ready(w, maxRooms)];
    }

    method HandleFailed(k: Key) returns (ghost trace: Trace)
      requires Valid() && k.worker in workers
      modifies `tasks, `workers, `rooms, `lastChecked, `available, `log
      ensures Valid() && old(log) <= log
      ensures k in old(tasks) ==> trace.penalty.Penalty? && trace.penalty.length == config.workerPenaltyMin * MINUTE
      ensures Checked(if k in old(tasks) then old(log) + [Fail(k, trace.penalty)] else old(log),
                      log, St(), trace.ran, trace.report, config)
    {
      hide Replay, CheckDone, RemoveTask;
      var known := k in tasks;
      var penalty := DeleteTask(k, true);
      if known {
        Record(Fail(k, penalty));
      }
      var ran, report := CheckAllStates();
      trace := Trace(0, penalty, ran, report);
    }

    /** Data of a task the worker does not have is dropped, and so is a payload without
        checksum that follows another of its room too soon. */
    method HandleData(k: Key, m: Wire.Incoming, now: Time)
      requires Valid() && m.Data?
      modifies `tasks, `rooms, `log
      ensures Valid() && log == old(log) + StepsOfData(old(St()), config, k, now, m)
    {
      hide Replay, Enabled, Apply;
      if k in tasks {
        TouchTask(k, now);
        var throttled := m.checksum == 0 &&
          (k.room !in rooms || now - rooms[k.room].lastEmptyCrc < config.minIntervalPopularitySec * SECOND);
        if !throttled {
          ForwardData(k, m, now);
        }
      }
    }

    method TouchTask(k: Key, now: Time)
      requires Valid() && k in tasks
      modifies `tasks, `log
      ensures Valid() && log == old(log) + [Touch(k, now)] && tasks == old(tasks)[k := now]
    {
      hide Replay, RemoveTask, AddTask, RecountRooms, RecountWorkers, WithoutWorker, InRoom, OfWorker;
      tasks := tasks[k := now];
      Record(Touch(k, now));
    }

    /** Passes a payload on; one without checksum is noted with its room. */
    method ForwardData(k: Key, m: Wire.Incoming, now: Time)
      requires Valid() && k in tasks && m.Data? && (m.checksum == 0 ==> k.room in rooms)
      modifies `rooms, `log
      ensures Valid()
      ensures log == old(log) + (if m.checksum == 0 then [MarkEmpty(k.room, now), Forward(k, m)] else [Forward(k, m)])
    {
      hide Replay, RemoveTask, AddTask, RecountRooms, RecountWorkers, WithoutWorker, InRoom, OfWorker;
      if m.checksum == 0 {
        rooms := rooms[k.room := rooms[k.room].(lastEmptyCrc := now)];
        Record(MarkEmpty(k.room, now));
      }
      Record(Forward(k, m));
    }

    // ----- runs -----

    /** One of the things the network, the timer, the room list and the configuration
        deliver.  Only a room list changes which rooms are listed and active, and payloads
        without checksum keep the configured distance. */
    method ServeOne(event: Event) returns (ghost now: Time, ghost trace: Trace)
      requires Valid() && (event.AuthCodeChanged? ==> |event.code| <= Wire.AUTH_CODE_SIZE)
      modifies this
      ensures Valid() && old(log) <= log && (!event.RoomList? ==> NoRoomList(log, |old(log)|))
      ensures Paced(log, |old(log)|, PopularityInterval(old(config)))
      ensures ServedBy(event, old(Held()), Held(), now, trace)
    {
      hide Replay, MessageHandled, Checked, Enabled, Apply, Inv, Wire.ReadPayload, KeepsDistance;
      ghost var before, interval := log, PopularityInterval(config);
      now, trace := 0, NoTrace();
      match event {
        case Connected(w) =>
          var received, at := HandleNewWorker(w);
          now, trace := received, trace.(at := at);
        case Disconnected(w) =>
          var at := HandleWorkerDisconnect(w);
          trace := trace.(at := at);
        case Payload(w, bytes) => now, trace := ServePayload(w, bytes);
        case RoomList(list) => UpdateRoomLists(list);
        case Tick =>
          var ran, report := CheckAllStates();
          trace := trace.(ran := ran, report := report);
          CheckedIsQuiet(before, log, St(), ran, report, config, interval);
        case Configured(updated) => UpdateConfig(updated);
        case AuthCodeChanged(code) => LoadAuthCode(code);
      }
      if !event.Payload? && !event.Tick? {
        NothingPassedOn(log, |before|, interval);
      }
    }

    method ServePayload(w: WorkerId, bytes: seq<byte>) returns (now: Time, ghost trace: Trace)
      requires Valid()
      modifies `tasks, `workers, `rooms, `lastChecked, `available, `log
      ensures Valid() && old(log) <= log && NoRoomList(log, |old(log)|)
      ensures Paced(log, |old(log)|, PopularityInterval(config))
      ensures ServedBy(Payload(w, bytes), old(Held()), Held(), now, trace)
    {
      hide Replay, MessageHandled, Wire.ReadPayload, KeepsDistance, Paced;
      ghost var before, interval := log, PopularityInterval(config);
      now, trace := HandleBuffer(w, bytes);
      ghost var m := Wire.ReadPayload(bytes);
      if !m.TooShort? && w in old(workers) {
        ghost var heard := before + [Hear(w, now)];
        MessageIsQuiet(heard, log, St(), authCode, config, w, now, m, trace);
        QuietTwice(before, heard, log, interval);
      } else {
        NothingPassedOn(log, |before|, interval);
      }
    }

    /** Everything, in any order. */
    method Serve(events: seq<Event>) returns (ghost history: seq<Snapshot>)
      requires Valid() && forall e :: e in events && e.AuthCodeChanged? ==> |e.code| <= Wire.AUTH_CODE_SIZE
      modifies this
      ensures Valid() && old(log) <= log && Inv(St())
      ensures |history| == |events| + 1 && history[0] == old(Held()) && history[|events|] == Held()
      ensures forall i :: 0 <= i < |events| ==> Served(events[i], history[i], history[i + 1])
      ensures (forall e :: e in events ==> !e.RoomList?) ==> NoRoomList(log, |old(log)|)
      ensures SameInterval(old(config), events) ==> Paced(log, |old(log)|, PopularityInterval(old(config)))
    {
      hide Replay, Inv, Paced, PopularityInterval;
      NothingLogged(log, PopularityInterval(config));
      history := [Held()];
      for i := 0 to |events|
        invariant Valid() && old(log) <= log
        invariant |history| == i + 1 && history[0] == old(Held()) && history[i] == Held()
        invariant forall n :: 0 <= n < i ==> Served(events[n], history[n], history[n + 1])
        invariant (forall e :: e in events ==> !e.RoomList?) ==> NoRoomList(log, |old(log)|)
        invariant SameInterval(old(config), events) ==>
          && PopularityInterval(config) == PopularityInterval(old(config))
          && Paced(log, |old(log)|, PopularityInterval(old(config)))
      {
        ghost var before, interval := log, PopularityInterval(old(config));
        assert events[i] in events;
        ghost var now, trace := ServeOne(events[i]);
        ConfigKept(events[i], history[i], Held(), now, trace);
        hide ServedBy;
        assert Served(events[i], history[i], Held());
        history := history + [Held()];
        if NoRoomList(before, |old(log)|) && NoRoomList(log, |before|) {
          NoRoomListTwice(before, log, |old(log)|);
        }
        if Paced(before, |old(log)|, interval) && Paced(log, |before|, interval) {
          PacedTwice(before, log, |old(log)|, interval);
        }
      }
      EveryRunKeepsInv(log);
    }

    /** The interval between payloads without checksum is left alone. */
    static ghost predicate SameInterval(config: Config, events: seq<Event>) {
      forall e :: e in events && e.Configured? ==> PopularityInterval(e.config) == PopularityInterval(config)
    }

    /** A room list, then any events but another list, then a check: if it ran, the list is
        in force, and the workers still there were told of every task the check took. */
    method ServeRoomList(list: set<RoomId>, events: seq<Event>) returns (ran: bool, ghost before: seq<Step>)
      requires Valid()
      requires forall e :: e in events ==>
        !e.RoomList? && (e.AuthCodeChanged? ==> |e.code| <= Wire.AUTH_CODE_SIZE)
      modifies this
      ensures Valid()
      ensures ran ==> rooms.Keys <= list && forall k :: k in tasks ==> k.room in list
      ensures ran ==>
        (rooms.Keys == list <==> forall r :: r in list && r in old(rooms) ==> old(rooms)[r].active)
      ensures old(log) <= before <= log && Replay(before).Legal?
      ensures ran ==>
        forall k :: k in Replay(before).state.tasks && k.room !in list && k.worker in workers ==>
          exists m :: |before| <= m < |log| && log[m].Unassign? && log[m].key == k
    {
      hide Replay, Inv, CheckDone, Listed, NoRoomList;
      UpdateRoomLists(list);
      ghost var listed := log;
      assert Replay(listed).state == St();
      ghost var history := Serve(events);
      before := log;
      ghost var s := St();
      ghost var report;
      ran, report := CheckAllStates();
      if ran {
        RoomListTakesEffect(old(St()), listed, list, before, s, St(), log, report, config);
      }
    }
  }
}
