/** What stretches of the scheduler's log tell: the messages and changes of each phase of a
    check, in the order in which the program makes them. */
module SchedulerTrail {
  import opened SchedulerModel
  import opened SchedulerCheck

  /** From position i on the log tells of tasks taken away with a penalty. */
  ghost predicate OnlyPenalties(log: seq<Step>, i: nat, length: Time) {
    i <= |log| && forall m :: i <= m < |log| ==>
      log[m].Unassign? && log[m].penalty.Penalty? && log[m].penalty.length == length
  }

  /** ... of the deletion of some rooms, and of tasks of those rooms taken away with a
      penalty. */
  ghost predicate OnlyPurges(log: seq<Step>, i: nat, gone: set<RoomId>, length: Time) {
    i <= |log| && forall m :: i <= m < |log| ==>
      if log[m].Unassign? then
        log[m].key.room in gone && log[m].penalty.Penalty? && log[m].penalty.length == length
      else log[m].PurgeRoom? && log[m].room in gone
  }

  /** ... of tasks of one room taken away without a penalty. */
  ghost predicate OnlyCuts(log: seq<Step>, i: nat, r: RoomId) {
    i <= |log| && forall m :: i <= m < |log| ==>
      log[m].Unassign? && log[m].penalty == NoPenalty && log[m].key.room == r
  }

  /** ... of rooms listed and unlisted. */
  ghost predicate OnlyListing(log: seq<Step>, i: nat) {
    i <= |log| && forall m :: i <= m < |log| ==> log[m].Deactivate? || log[m].AddRoom?
  }

  /** ... of these workers reset, deleted and disconnected, one after the other. */
  ghost predicate Deletions(log: seq<Step>, i: nat, gone: seq<WorkerId>)
    decreases |gone|
  {
    if gone == [] then |log| == i
    else
      var n, w := |log| - 3, gone[|gone| - 1];
      && i <= n && log[n].Reset? && log[n].worker == w
      && log[n + 1] == Erase(w) && log[n + 2] == Disconnect(w)
      && Deletions(log[..n], i, gone[..|gone| - 1])
  }

  lemma DeletionsNext(log: seq<Step>, i: nat, gone: seq<WorkerId>, w: WorkerId, at: Time)
    requires Deletions(log, i, gone) && i <= |log|
    ensures Deletions(log + [Reset(w, at), Erase(w), Disconnect(w)], i, gone + [w])
  {
    var longer := log + [Reset(w, at), Erase(w), Disconnect(w)];
    assert longer[..|longer| - 3] == log && (gone + [w])[..|gone|] == gone;
  }

  /** Every step of a stretch of deletions is one of the three. */
  lemma {:induction false} DeletionSteps(log: seq<Step>, i: nat, gone: seq<WorkerId>)
    requires Deletions(log, i, gone)
    ensures i <= |log|
    ensures forall m :: i <= m < |log| ==>
      (log[m].Reset? || log[m].Erase? || log[m].Disconnect?) && log[m].worker in gone
    decreases |gone|
  {
    if gone != [] {
      var n := |log| - 3;
      DeletionSteps(log[..n], i, gone[..|gone| - 1]);
      forall m | i <= m < |log|
        ensures (log[m].Reset? || log[m].Erase? || log[m].Disconnect?) && log[m].worker in gone
      {
        if m < n {
          assert log[..n][m] == log[m];
        } else {
          assert m == n || m == n + 1 || m == n + 2;
        }
      }
    }
  }

  /** ... and each of the workers has its three. */
  lemma {:induction false} DeletionOf(log: seq<Step>, i: nat, gone: seq<WorkerId>, w: WorkerId) returns (m: nat)
    requires Deletions(log, i, gone) && w in gone
    ensures i <= m && m + 2 < |log| && log[m].Reset? && log[m].worker == w
    ensures log[m + 1] == Erase(w) && log[m + 2] == Disconnect(w)
    decreases |gone|
  {
    var n := |log| - 3;
    if gone[|gone| - 1] == w {
      m := n;
    } else {
      m := DeletionOf(log[..n], i, gone[..|gone| - 1], w);
      DeletionSteps(log[..n], i, gone[..|gone| - 1]);
    }
  }

  /** ... of these workers collected with one quota. */
  ghost predicate Collects(log: seq<Step>, i: nat, list: seq<WorkerId>, quota: int) {
    |log| == i + |list| && forall m :: 0 <= m < |list| ==> log[i + m] == Collect(list[m], quota)
  }

  lemma CollectsNext(log: seq<Step>, i: nat, list: seq<WorkerId>, quota: int, w: WorkerId)
    requires Collects(log, i, list, quota)
    ensures Collects(log + [Collect(w, quota)], i, list + [w], quota)
  {
  }

  /** The log ends with the messages of this turn: one assignment, or the cuts. */
  ghost predicate TurnLogged(log: seq<Step>, t: Turn) {
    && t.at <= |log|
    && (if t.gained.Some? then t.trimmed == 0 && log[t.at..] == [Assign(Key(t.gained.value, t.room))]
        else |log| == t.at + t.trimmed && OnlyCuts(log, t.at, t.room))
  }

  /** From position i on the log tells of these turns, one after the other. */
  ghost predicate TurnsLogged(log: seq<Step>, i: nat, turns: seq<Turn>)
    decreases |turns|
  {
    if turns == [] then |log| == i
    else
      var t := turns[|turns| - 1];
      i <= t.at && TurnLogged(log, t) && TurnsLogged(log[..t.at], i, turns[..|turns| - 1])
  }

  lemma TurnsLoggedNext(log: seq<Step>, longer: seq<Step>, i: nat, turns: seq<Turn>, t: Turn)
    requires TurnsLogged(log, i, turns) && i <= |log| && log <= longer && t.at == |log| && TurnLogged(longer, t)
    ensures TurnsLogged(longer, i, turns + [t])
  {
    assert longer[..t.at] == log && (turns + [t])[..|turns|] == turns;
  }

  // ----- what follows -----

  /** How many tasks the steps from i on take away without a penalty. */
  function Cuts(log: seq<Step>, i: nat): nat
    decreases |log|
  {
    if |log| <= i then 0
    else
      var last := log[|log| - 1];
      Cuts(log[..|log| - 1], i) + (if last.Unassign? && last.penalty == NoPenalty then 1 else 0)
  }

  lemma {:induction false} NoCuts(log: seq<Step>, i: nat)
    requires forall m :: i <= m < |log| ==> !(log[m].Unassign? && log[m].penalty == NoPenalty)
    ensures Cuts(log, i) == 0
    decreases |log|
  {
    if i < |log| {
      NoCuts(log[..|log| - 1], i);
    }
  }

  lemma {:induction false} CutsSplit(log: seq<Step>, i: nat, j: nat)
    requires i <= j <= |log|
    ensures Cuts(log, i) == Cuts(log[..j], i) + Cuts(log, j)
    decreases |log|
  {
    if j == |log| {
      assert log[..j] == log;
    } else {
      var n := |log| - 1;
      assert log[..n][..j] == log[..j];
      CutsSplit(log[..n], i, j);
    }
  }

  lemma {:induction false} AllCuts(log: seq<Step>, i: nat, r: RoomId)
    requires OnlyCuts(log, i, r)
    ensures Cuts(log, i) == |log| - i
    decreases |log|
  {
    if i < |log| {
      AllCuts(log[..|log| - 1], i, r);
    }
  }

  /** The turns send exactly as many unpenalised unassigns as they report. */
  lemma {:induction false} CutsOfTurns(log: seq<Step>, i: nat, turns: seq<Turn>)
    requires TurnsLogged(log, i, turns)
    ensures i <= |log| && Cuts(log, i) == Trimmed(turns)
    decreases |turns|
  {
    if turns == [] {
      NoCuts(log, i);
    } else {
      var n := |turns| - 1;
      var t := turns[n];
      CutsOfTurns(log[..t.at], i, turns[..n]);
      CutsSplit(log, i, t.at);
      if t.gained.Some? {
        assert |log| == t.at + 1 && log[t.at] == log[t.at..][0];
        NoCuts(log, t.at);
      } else {
        AllCuts(log, t.at, t.room);
      }
    }
  }

  lemma {:induction false} TurnPosition(log: seq<Step>, i: nat, turns: seq<Turn>, j: nat)
    requires TurnsLogged(log, i, turns) && j < |turns|
    ensures i <= turns[j].at <= |log|
    decreases |turns|
  {
    var n := |turns| - 1;
    if j < n {
      TurnPosition(log[..turns[n].at], i, turns[..n], j);
    }
  }

  /** A turn that gained sent one assignment, and a turn that did not sent its cuts. */
  lemma {:induction false} TurnSends(log: seq<Step>, i: nat, turns: seq<Turn>, j: nat)
    requires TurnsLogged(log, i, turns) && j < |turns|
    ensures var t := turns[j];
            && i <= t.at && t.at + (if t.gained.Some? then 1 else t.trimmed) <= |log|
            && (t.gained.Some? ==> log[t.at] == Assign(Key(t.gained.value, t.room)))
            && (t.gained.None? ==> forall m :: t.at <= m < t.at + t.trimmed ==>
                  log[m].Unassign? && log[m].penalty == NoPenalty && log[m].key.room == t.room)
    decreases |turns|
  {
    var n := |turns| - 1;
    var last := turns[n];
    if j < n {
      TurnSends(log[..last.at], i, turns[..n], j);
    } else if last.gained.Some? {
      assert log[last.at..][0] == log[last.at];
    }
  }

  function TurnRooms(turns: seq<Turn>): set<RoomId> {
    set i | 0 <= i < |turns| :: turns[i].room
  }

  /** A step of a turn of one of these rooms. */
  predicate TurnStep(step: Step, rooms: set<RoomId>) {
    if step.Unassign? then step.penalty == NoPenalty && step.key.room in rooms
    else step.Assign? && step.key.room in rooms
  }

  /** Turns only assign and cut tasks of their rooms. */
  lemma {:induction false} TurnSteps(log: seq<Step>, i: nat, turns: seq<Turn>)
    requires TurnsLogged(log, i, turns)
    ensures i <= |log| && forall m :: i <= m < |log| ==> TurnStep(log[m], TurnRooms(turns))
    decreases |turns|
  {
    if turns != [] {
      var n := |turns| - 1;
      var t := turns[n];
      TurnSteps(log[..t.at], i, turns[..n]);
      forall r | r in TurnRooms(turns[..n]) ensures r in TurnRooms(turns) {
        var q :| 0 <= q < n && turns[..n][q].room == r;
        assert turns[q].room == r;
      }
      forall m | i <= m < |log| ensures TurnStep(log[m], TurnRooms(turns)) {
        if m < t.at {
          assert log[..t.at][m] == log[m];
        } else if t.gained.Some? {
          assert log[m] == log[t.at..][m - t.at];
        }
      }
    }
  }

  // ----- rooms listed and rooms kept -----

  function ActiveRooms(s: State): set<RoomId> {
    set r | r in s.rooms && s.rooms[r].active
  }

  function InactiveRooms(rooms: map<RoomId, Room>): set<RoomId> {
    set r | r in rooms && !rooms[r].active
  }

  /** No room list came in from position i on. */
  ghost predicate NoRoomList(log: seq<Step>, i: nat) {
    i <= |log| && forall m :: i <= m < |log| ==> !log[m].Deactivate? && !log[m].AddRoom?
  }

  lemma NoRoomListTwice(a: seq<Step>, b: seq<Step>, i: nat)
    requires NoRoomList(a, i) && a <= b && NoRoomList(b, |a|)
    ensures NoRoomList(b, i)
  {
    forall m | i <= m < |b| ensures !b[m].Deactivate? && !b[m].AddRoom? {
      if m < |a| {
        assert b[m] == a[m];
      }
    }
  }

  lemma ActiveRoomsStep(s: State, step: Step)
    requires Enabled(s, step) && !step.Deactivate? && !step.AddRoom?
    ensures ActiveRooms(Apply(s, step)) == ActiveRooms(s)
  {
    hide RecountWorkers, OfWorker, WithoutWorker, Punish;
  }

  /** Only room lists change which rooms are active. */
  lemma {:induction false} ActiveRoomsStay(log: seq<Step>, i: nat)
    requires Replay(log).Legal? && NoRoomList(log, i)
    ensures Replay(log[..i]).Legal? && ActiveRooms(Replay(log).state) == ActiveRooms(Replay(log[..i]).state)
    decreases |log|
  {
    if i == |log| {
      assert log[..i] == log;
    } else {
      var n := |log| - 1;
      ActiveRoomsStay(log[..n], i);
      assert log[..n][..i] == log[..i];
      hide Apply, Enabled, ActiveRooms;
      ActiveRoomsStep(Replay(log[..n]).state, log[n]);
    }
  }

  // ----- payloads without checksum -----

  /** A payload without checksum is passed on. */
  predicate Unchecked(step: Step) {
    step.Forward? && step.data.Data? && step.data.checksum == 0
  }

  /** Step m keeps the distance: a room is only marked if its last mark is long enough ago,
      and a payload without checksum only follows a mark of its room. */
  ghost predicate KeepsDistance(log: seq<Step>, i: nat, m: nat, interval: Time)
    requires m < |log|
  {
    && (log[m].MarkEmpty? ==>
          && Replay(log[..m]).Legal? && log[m].room in Replay(log[..m]).state.rooms
          && log[m].at - Replay(log[..m]).state.rooms[log[m].room].lastEmptyCrc >= interval)
    && (Unchecked(log[m]) ==> m > i && log[m - 1].MarkEmpty? && log[m - 1].room == log[m].key.room)
  }

  ghost predicate Paced(log: seq<Step>, i: nat, interval: Time) {
    i <= |log| && forall m :: i <= m < |log| ==> KeepsDistance(log, i, m, interval)
  }

  lemma PacedTwice(a: seq<Step>, b: seq<Step>, i: nat, interval: Time)
    requires Paced(a, i, interval) && a <= b && Paced(b, |a|, interval)
    ensures Paced(b, i, interval)
  {
    hide Replay;
    forall m | i <= m < |b| ensures KeepsDistance(b, i, m, interval) {
      if m < |a| {
        assert KeepsDistance(a, i, m, interval);
        assert b[m] == a[m] && b[..m] == a[..m] && (m > 0 ==> b[m - 1] == a[m - 1]);
      } else {
        assert KeepsDistance(b, |a|, m, interval);
      }
    }
  }

  lemma NothingPassedOn(log: seq<Step>, i: nat, interval: Time)
    requires i <= |log| && forall m :: i <= m < |log| ==> !log[m].MarkEmpty? && !Unchecked(log[m])
    ensures Paced(log, i, interval)
  {
  }

  /** What one step leaves of a room's last mark. */
  lemma MarkStep(s: State, step: Step, r: RoomId)
    requires Enabled(s, step) && r in s.rooms && step != PurgeRoom(r)
    ensures r in Apply(s, step).rooms
    ensures Apply(s, step).rooms[r].lastEmptyCrc
         == if step.MarkEmpty? && step.room == r then step.at else s.rooms[r].lastEmptyCrc
  {
    hide RecountWorkers, OfWorker, InRoom, WithoutWorker, Punish;
  }

  /** Marks of a room never go back. */
  lemma {:induction false} MarkStands(log: seq<Step>, i: nat, a: nat, b: nat, r: RoomId, interval: Time)
    requires Replay(log).Legal? && Paced(log, i, interval) && 0 <= interval
    requires i <= a < b <= |log| && log[a].MarkEmpty? && log[a].room == r
    requires forall m :: a < m < b ==> log[m] != PurgeRoom(r)
    ensures Replay(log[..b]).Legal? && r in Replay(log[..b]).state.rooms
    ensures Replay(log[..b]).state.rooms[r].lastEmptyCrc >= log[a].at
    decreases b
  {
    hide Replay, Apply, Enabled;
    ReplayPrefix(log, b - 1);
    ReplayPrefix(log, b);
    var s := Replay(log[..b - 1]).state;
    assert KeepsDistance(log, i, b - 1, interval);
    if a < b - 1 {
      MarkStands(log, i, a, b - 1, r, interval);
    } else {
      assert r in s.rooms;
    }
    MarkStep(s, log[b - 1], r);
  }

  /** Two payloads of one room without checksum that are passed on are at least the interval
      apart, unless the room was deleted in between. */
  lemma UncheckedAreSpaced(log: seq<Step>, i: nat, a: nat, b: nat, interval: Time)
    requires Replay(log).Legal? && Paced(log, i, interval) && 0 <= interval && i <= a < b < |log|
    requires Unchecked(log[a]) && Unchecked(log[b]) && log[a].key.room == log[b].key.room
    requires forall m :: a < m < b ==> log[m] != PurgeRoom(log[a].key.room)
    ensures a > 0 && log[a - 1].MarkEmpty? && log[b - 1].MarkEmpty?
    ensures log[a - 1].room == log[b - 1].room == log[a].key.room
    ensures log[b - 1].at - log[a - 1].at >= interval
  {
    hide Replay;
    assert KeepsDistance(log, i, a, interval) && KeepsDistance(log, i, b, interval);
    assert b - 1 != a;
    MarkStands(log, i, a - 1, b - 1, log[a].key.room, interval);
    assert KeepsDistance(log, i, b - 1, interval);
  }
}
