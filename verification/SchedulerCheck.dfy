/** What one periodic check decides, stated on values: the ceiling, the first-fit search
    for a worker, and the turns of the rooms (src/supervisor/worker_scheduler.cpp, lines
    192-201 and 283-380). */
module SchedulerCheck {
  import opened Prelude
  import opened SchedulerModel

  const MAX_DISCONNECTS: nat := 10                       // room_disconnect_throttling
  const NO_MINIMUM: int := 0x7fff_ffff / 2               // numeric_limits<int>::max() / 2

  // ----- the ceiling -----

  /** C++ division: towards zero. */
  function TruncDiv(a: int, b: int): int
    requires b > 0
  {
    if a >= 0 then a / b else -((-a) / b)
  }

  ghost function TotalMaxRooms(workers: map<WorkerId, Worker>): int
    decreases |workers|
  {
    if workers == map[] then 0
    else
      var w :| w in workers;
      workers[w].maxRooms + TotalMaxRooms(workers - {w})
  }

  lemma {:induction false} TotalWithout(workers: map<WorkerId, Worker>, w: WorkerId)
    requires w in workers
    ensures TotalMaxRooms(workers) == workers[w].maxRooms + TotalMaxRooms(workers - {w})
    decreases |workers|
  {
    var v :| v in workers && TotalMaxRooms(workers) == workers[v].maxRooms + TotalMaxRooms(workers - {v});
    if v != w {
      TotalWithout(workers - {v}, w);
      assert workers - {v} - {w} == workers - {w} - {v};
      TotalWithout(workers - {w}, v);
    }
  }

  ghost function Ceiling(workers: map<WorkerId, Worker>, roomCount: nat): int {
    var perRoom := if roomCount == 0 then 0 else TruncDiv(TotalMaxRooms(workers), roomCount) + 1;
    Max(1, Max(perRoom, |workers|))
  }

  /** Division towards zero: the quotient times the divisor is the nearest multiple that is
      not farther from zero than the dividend. */
  lemma TruncDivExactly(a: int, b: int)
    requires b > 0
    ensures var q := TruncDiv(a, b);
            if a >= 0 then 0 <= q && q * b <= a < q * b + b else q <= 0 && q * b - b < a <= q * b
  {
  }

  /** The ceiling is the largest of one, the number of workers, and one more than the limits
      of all workers divided by the number of rooms. */
  lemma CeilingExactly(workers: map<WorkerId, Worker>, roomCount: nat)
    ensures var c := Ceiling(workers, roomCount);
            && c >= 1 && c >= |workers|
            && (roomCount > 0 ==> c >= TruncDiv(TotalMaxRooms(workers), roomCount) + 1)
            && (c == 1 || c == |workers|
                || (roomCount > 0 && c == TruncDiv(TotalMaxRooms(workers), roomCount) + 1))
  {
    hide TotalMaxRooms, TruncDiv;
  }

  /** The sum of the limits: none without workers, and each worker adds its own. */
  lemma LimitsAddUp(workers: map<WorkerId, Worker>, w: WorkerId, worker: Worker)
    requires w !in workers
    ensures TotalMaxRooms(map[]) == 0
    ensures TotalMaxRooms(workers[w := worker]) == TotalMaxRooms(workers) + worker.maxRooms
  {
    var more := workers[w := worker];
    assert more - {w} == workers;
    TotalWithout(more, w);
  }

  // ----- the search for a worker -----

  predicate Takes(s: State, r: RoomId, w: WorkerId) {
    Eligible(s, w) && Key(w, r) !in s.tasks
  }

  /** The position of the first listed worker that can take the room. */
  function FirstFit(s: State, r: RoomId, list: seq<WorkerId>): (n: nat)
    ensures n <= |list|
  {
    if list == [] || Takes(s, r, list[0]) then 0 else 1 + FirstFit(s, r, list[1..])
  }

  function EligibleOf(s: State, list: seq<WorkerId>): seq<WorkerId> {
    if list == [] then []
    else (if Eligible(s, list[0]) then [list[0]] else []) + EligibleOf(s, list[1..])
  }

  /** The list after a search that looked at its first n workers: the ineligible among
      them are gone. */
  function Scanned(s: State, list: seq<WorkerId>, n: nat): seq<WorkerId>
    requires n <= |list|
  {
    EligibleOf(s, list[..n]) + list[n..]
  }

  /** FirstFit is the least position that can take the room. */
  lemma {:induction false} FirstFitIsLeast(s: State, r: RoomId, list: seq<WorkerId>, n: nat)
    requires n <= |list|
    ensures n == FirstFit(s, r, list)
       <==> (forall i :: 0 <= i < n ==> !Takes(s, r, list[i])) && (n < |list| ==> Takes(s, r, list[n]))
  {
    if list != [] && n > 0 {
      FirstFitIsLeast(s, r, list[1..], n - 1);
      assert forall i :: 1 <= i < n ==> list[i] == list[1..][i - 1];
      assert forall i :: 0 <= i < n - 1 ==> list[1..][i] == list[i + 1];
    }
  }

  lemma {:induction false} EligibleOfLast(s: State, list: seq<WorkerId>, w: WorkerId)
    ensures EligibleOf(s, list + [w]) == EligibleOf(s, list) + (if Eligible(s, w) then [w] else [])
  {
    if list == [] {
      assert list + [w] == [w];
    } else {
      assert (list + [w])[1..] == list[1..] + [w];
      EligibleOfLast(s, list[1..], w);
    }
  }

  lemma {:induction false} EligibleOfMembers(s: State, list: seq<WorkerId>)
    ensures forall w :: w in EligibleOf(s, list) ==> w in list
  {
    if list != [] {
      EligibleOfMembers(s, list[1..]);
    }
  }

  lemma {:induction false} EligibleOfKeeps(s: State, list: seq<WorkerId>, w: WorkerId)
    requires w in list && Eligible(s, w)
    ensures w in EligibleOf(s, list)
  {
    if list[0] != w {
      EligibleOfKeeps(s, list[1..], w);
    }
  }

  /** A search only erases workers that are not eligible. */
  lemma ScannedKeeps(s: State, list: seq<WorkerId>, n: nat, w: WorkerId)
    requires n <= |list| && w in list && Eligible(s, w)
    ensures w in Scanned(s, list, n)
  {
    assert list == list[..n] + list[n..];
    if w in list[..n] {
      EligibleOfKeeps(s, list[..n], w);
    }
  }

  /** What a search must return: the list thinned out, the worker chosen, and whether the
      room is then looked at for surplus tasks. */
  predicate SearchResult(s: State, r: RoomId, list: seq<WorkerId>,
                         left: seq<WorkerId>, who: Option<WorkerId>, open: bool)
  {
    var n := FirstFit(s, r, list);
    && left == Scanned(s, list, n)
    && who == (if n < |list| then Some(list[n]) else None)
    && open == (n == |list| && (list == [] || Eligible(s, list[|list| - 1])))
  }

  /** The search has looked at the first m workers of the list and stands at position i of
      what is left of it. */
  predicate Searching(s: State, r: RoomId, list: seq<WorkerId>, m: nat, left: seq<WorkerId>, i: nat) {
    && m <= |list| && left == Scanned(s, list, m) && i == |EligibleOf(s, list[..m])|
    && forall j :: 0 <= j < m ==> !Takes(s, r, list[j])
  }

  /** The list after one more worker has been looked at. */
  lemma ScanOne(s: State, list: seq<WorkerId>, m: nat)
    requires m < |list|
    ensures var before, after := Scanned(s, list, m), Scanned(s, list, m + 1);
            var i := |EligibleOf(s, list[..m])|;
            && before[i] == list[m]
            && (if Eligible(s, list[m]) then after == before && |EligibleOf(s, list[..m + 1])| == i + 1
                else after == before[..i] + before[i + 1..] && |EligibleOf(s, list[..m + 1])| == i)
  {
    hide EligibleOf, Eligible;
    assert list[..m + 1] == list[..m] + [list[m]];
    EligibleOfLast(s, list[..m], list[m]);
    MiddleOf(EligibleOf(s, list[..m]), list, m);
  }

  lemma MiddleOf(kept: seq<WorkerId>, list: seq<WorkerId>, m: nat)
    requires m < |list|
    ensures var all := kept + list[m..];
            && all[|kept|] == list[m]
            && (kept + [list[m]]) + list[m + 1..] == all
            && kept + list[m + 1..] == all[..|kept|] + all[|kept| + 1..]
  {
    assert list[m..] == [list[m]] + list[m + 1..];
    var all := kept + list[m..];
    assert all[..|kept|] == kept && all[|kept| + 1..] == list[m + 1..];
  }

  lemma SearchStarts(s: State, r: RoomId, list: seq<WorkerId>)
    ensures Searching(s, r, list, 0, list, 0)
  {
    assert list[..0] == [];
  }

  lemma SearchPosition(s: State, r: RoomId, list: seq<WorkerId>, m: nat, left: seq<WorkerId>, i: nat)
    requires Searching(s, r, list, m, left, i)
    ensures m <= |list| && i <= |left| && (m < |list| <==> i < |left|)
    ensures m < |list| ==> left[i] == list[m] && list[m] in list
  {
    hide EligibleOf;
    if m < |list| {
      ScanOne(s, list, m);
    }
  }

  /** An ineligible worker is erased in place. */
  lemma SearchErases(s: State, r: RoomId, list: seq<WorkerId>, m: nat, left: seq<WorkerId>, i: nat)
    requires Searching(s, r, list, m, left, i) && m < |list| && !Eligible(s, list[m])
    ensures i < |left| && Searching(s, r, list, m + 1, left[..i] + left[i + 1..], i)
  {
    hide EligibleOf;
    ScanOne(s, list, m);
  }

  /** An eligible worker that holds the room is passed over. */
  lemma SearchPasses(s: State, r: RoomId, list: seq<WorkerId>, m: nat, left: seq<WorkerId>, i: nat)
    requires Searching(s, r, list, m, left, i) && m < |list| && Eligible(s, list[m]) && Key(list[m], r) in s.tasks
    ensures Searching(s, r, list, m + 1, left, i + 1)
  {
    hide EligibleOf;
    ScanOne(s, list, m);
  }

  lemma SearchEnds(s: State, r: RoomId, list: seq<WorkerId>, m: nat, left: seq<WorkerId>, i: nat)
    requires Searching(s, r, list, m, left, i)
    ensures m < |list| && Takes(s, r, list[m]) ==> SearchResult(s, r, list, left, Some(list[m]), false)
    ensures m == |list| ==>
      SearchResult(s, r, list, left, None, list == [] || Eligible(s, list[|list| - 1]))
  {
    hide EligibleOf, FirstFit;
    FirstFitIsLeast(s, r, list, m);
  }

  // ----- the turns of the rooms -----

  /** One room's turn: where the log stood, the workers still listed, the room's task count,
      who was given to it and how many tasks it lost. */
  datatype Turn = Turn(room: RoomId, at: nat, offered: seq<WorkerId>, before: int,
                       gained: Option<WorkerId>, trimmed: nat)

  function Trimmed(turns: seq<Turn>): nat {
    if turns == [] then 0 else Trimmed(turns[..|turns| - 1]) + turns[|turns| - 1].trimmed
  }

  function Gained(turns: seq<Turn>, w: WorkerId): nat {
    if turns == [] then 0
    else Gained(turns[..|turns| - 1], w) + (if turns[|turns| - 1].gained == Some(w) then 1 else 0)
  }

  function Surplus(before: int, ceiling: int, minimum: int): int {
    Max(before - ceiling, before - minimum - 1)
  }

  /** The search ran to the end of the list without the early exit that follows an erased
      last worker. */
  predicate FellThrough(s: State, t: Turn, ceiling: int) {
    t.before >= ceiling || t.offered == [] || Eligible(s, t.offered[|t.offered| - 1])
  }

  /** What a turn does, given the state it starts in and the disconnects still allowed. */
  predicate TurnDecides(s: State, t: Turn, ceiling: int, minimum: int, allowed: nat) {
    var n := FirstFit(s, t.room, t.offered);
    if t.before < ceiling && n < |t.offered| then
      t.gained == Some(t.offered[n]) && t.trimmed == 0
    else
      && t.gained == None
      && t.trimmed == (if FellThrough(s, t, ceiling)
                       then Min(Max(0, Surplus(t.before, ceiling, minimum)), allowed) else 0)
  }

  /** The list the next turn sees. */
  function OfferedNext(s: State, t: Turn, ceiling: int): seq<WorkerId> {
    if t.before >= ceiling then t.offered else Scanned(s, t.offered, FirstFit(s, t.room, t.offered))
  }

  function AfterTurn(t: Turn): int {
    t.before + (if t.gained.Some? then 1 else 0) - t.trimmed
  }

  /** The state in which the i-th turn starts. */
  ghost function StateAt(log: seq<Step>, t: Turn): State {
    if t.at <= |log| && Replay(log[..t.at]).Legal? then Replay(log[..t.at]).state else INITIAL
  }

  /** The i-th turn of a check did what it should, along the log. */
  ghost predicate TurnFollows(log: seq<Step>, turns: seq<Turn>, i: nat, ceiling: int, minimum: int)
    requires i < |turns|
  {
    var t := turns[i];
    && t.at <= |log| && Replay(log[..t.at]).Legal?
    && Trimmed(turns[..i]) <= MAX_DISCONNECTS
    && TurnDecides(StateAt(log, t), t, ceiling, minimum, MAX_DISCONNECTS - Trimmed(turns[..i]))
    && (i + 1 < |turns| ==> turns[i + 1].offered == OfferedNext(StateAt(log, t), t, ceiling))
  }

  ghost predicate TurnsFollow(log: seq<Step>, turns: seq<Turn>, ceiling: int, minimum: int) {
    forall i :: 0 <= i < |turns| ==> TurnFollows(log, turns, i, ceiling, minimum)
  }

  lemma StateAtExtends(log: seq<Step>, longer: seq<Step>, t: Turn)
    requires log <= longer && t.at <= |log|
    ensures StateAt(longer, t) == StateAt(log, t)
  {
    assert longer[..t.at] == log[..t.at];
  }

  /** What the turn after these must be offered. */
  ghost predicate OfferedAfter(log: seq<Step>, turns: seq<Turn>, ceiling: int, first: seq<WorkerId>,
                               list: seq<WorkerId>)
  {
    if turns == [] then list == first
    else list == OfferedNext(StateAt(log, turns[|turns| - 1]), turns[|turns| - 1], ceiling)
  }

  /** One more turn, taken at the end of the log. */
  lemma TurnsFollowNext(log: seq<Step>, longer: seq<Step>, turns: seq<Turn>, t: Turn, ceiling: int, minimum: int,
                        first: seq<WorkerId>, s: State)
    requires TurnsFollow(log, turns, ceiling, minimum) && OfferedAfter(log, turns, ceiling, first, t.offered)
    requires log <= longer && t.at == |log| && Replay(log) == Legal(s)
    requires Trimmed(turns) <= MAX_DISCONNECTS
    requires TurnDecides(s, t, ceiling, minimum, MAX_DISCONNECTS - Trimmed(turns))
    ensures TurnsFollow(longer, turns + [t], ceiling, minimum)
    ensures OfferedAfter(longer, turns + [t], ceiling, first, OfferedNext(s, t, ceiling))
    ensures Trimmed(turns + [t]) == Trimmed(turns) + t.trimmed
    ensures forall w: WorkerId :: Gained(turns + [t], w) == Gained(turns, w) + (if t.gained == Some(w) then 1 else 0)
  {
    hide TurnDecides, Replay, Scanned, FirstFit;
    var all := turns + [t];
    assert all[..|turns|] == turns && longer[..|log|] == log;
    forall i | 0 <= i < |all| ensures TurnFollows(longer, all, i, ceiling, minimum) {
      if i < |turns| {
        assert TurnFollows(log, turns, i, ceiling, minimum);
        assert all[i] == turns[i] && all[..i] == turns[..i];
        assert longer[..all[i].at] == log[..all[i].at];
        StateAtExtends(log, longer, turns[i]);
      }
    }
  }

  lemma {:induction false} TrimmedPrefix(turns: seq<Turn>, i: nat)
    requires i < |turns|
    ensures Trimmed(turns[..i]) + turns[i].trimmed <= Trimmed(turns)
  {
    var n := |turns| - 1;
    if i < n {
      TrimmedPrefix(turns[..n], i);
      assert turns[..n][..i] == turns[..i];
    }
  }

  /** A room that loses tasks keeps at least the smaller of the ceiling and the minimum
      plus one, and exactly that many if the disconnects allowed suffice. */
  lemma TurnKeepsRoomServed(s: State, t: Turn, ceiling: int, minimum: int, allowed: nat)
    requires TurnDecides(s, t, ceiling, minimum, allowed)
    ensures t.gained.Some? ==> t.trimmed == 0 && AfterTurn(t) <= ceiling
    ensures t.trimmed > 0 ==> AfterTurn(t) >= Min(ceiling, minimum + 1)
    ensures 0 < t.trimmed < allowed ==> AfterTurn(t) == Min(ceiling, minimum + 1)
    ensures t.trimmed <= allowed
  {
  }

  /** What becomes of a room that gains nothing.  If its search was not cut short by a last
      worker that had to be erased, its surplus goes as far as disconnects are allowed: down
      to the ceiling and to one more than the least. */
  lemma TurnTrimsExactly(s: State, t: Turn, ceiling: int, minimum: int, allowed: nat)
    requires TurnDecides(s, t, ceiling, minimum, allowed) && t.gained == None
    ensures if t.before >= ceiling || t.offered == [] || Eligible(s, t.offered[|t.offered| - 1])
            then AfterTurn(t) == Max(t.before - allowed, Min(t.before, Min(ceiling, minimum + 1)))
            else AfterTurn(t) == t.before && t.trimmed == 0
  {
  }

  /** The worker at position n can take the room, and none before it. */
  predicate FirstToTake(s: State, r: RoomId, list: seq<WorkerId>, n: nat) {
    n < |list| && Takes(s, r, list[n]) && forall m :: 0 <= m < n ==> !Takes(s, r, list[m])
  }

  /** A room that gains a worker has one task more and loses none. */
  lemma TurnGainsExactly(s: State, t: Turn, ceiling: int, minimum: int, allowed: nat)
    requires TurnDecides(s, t, ceiling, minimum, allowed)
    ensures t.gained.Some? <==> t.before < ceiling && exists w :: w in t.offered && Takes(s, t.room, w)
    ensures t.gained.Some? ==> t.trimmed == 0 && AfterTurn(t) == t.before + 1
    ensures t.gained.Some? ==>
      exists n :: 0 <= n < |t.offered| && t.gained == Some(t.offered[n]) && FirstToTake(s, t.room, t.offered, n)
  {
    var n := FirstFit(s, t.room, t.offered);
    FirstFitIsLeast(s, t.room, t.offered, n);
    if n < |t.offered| {
      assert t.offered[n] in t.offered && FirstToTake(s, t.room, t.offered, n);
    } else {
      forall w | w in t.offered ensures !Takes(s, t.room, w) {
        var i :| 0 <= i < |t.offered| && t.offered[i] == w;
      }
    }
  }

  lemma TurnWithinAllowance(log: seq<Step>, turns: seq<Turn>, ceiling: int, minimum: int, i: nat)
    requires TurnsFollow(log, turns, ceiling, minimum) && i < |turns|
    ensures var t := turns[i];
            && (t.gained.Some? ==> t.trimmed == 0 && AfterTurn(t) <= ceiling)
            && (t.trimmed > 0 ==> AfterTurn(t) >= Min(ceiling, minimum + 1))
            && (t.trimmed > 0 && Trimmed(turns[..i]) + t.trimmed < MAX_DISCONNECTS ==>
                  AfterTurn(t) == Min(ceiling, minimum + 1))
            && Trimmed(turns[..i]) + t.trimmed <= MAX_DISCONNECTS
  {
    hide TurnDecides, AfterTurn, StateAt, Replay;
    assert TurnFollows(log, turns, i, ceiling, minimum);
    TurnKeepsRoomServed(StateAt(log, turns[i]), turns[i], ceiling, minimum, MAX_DISCONNECTS - Trimmed(turns[..i]));
  }

  /** No turn of a check empties a room, no room both gains and loses, and at most ten
      tasks are cut in all; while fewer are, each uneven room is cut all the way. */
  lemma RebalancingKeepsRoomsServed(log: seq<Step>, turns: seq<Turn>, ceiling: int, minimum: int, i: nat)
    requires TurnsFollow(log, turns, ceiling, minimum) && i < |turns|
    requires ceiling >= 1 && 0 <= minimum
    ensures turns[i].gained.Some? ==> turns[i].trimmed == 0 && AfterTurn(turns[i]) <= ceiling
    ensures turns[i].trimmed > 0 ==> AfterTurn(turns[i]) >= Min(ceiling, minimum + 1) >= 1
    ensures turns[i].trimmed > 0 && Trimmed(turns) < MAX_DISCONNECTS ==>
      AfterTurn(turns[i]) == Min(ceiling, minimum + 1)
    ensures Trimmed(turns) <= MAX_DISCONNECTS
  {
    hide TurnsFollow, AfterTurn;
    TrimmedPrefix(turns, i);
    TurnWithinAllowance(log, turns, ceiling, minimum, i);
    TurnWithinAllowance(log, turns, ceiling, minimum, |turns| - 1);
  }

  /** A room left below the ceiling without a new task: nobody on its list could take it. */
  lemma GreedyIsComplete(s: State, t: Turn, ceiling: int, minimum: int, allowed: nat)
    requires TurnDecides(s, t, ceiling, minimum, allowed)
    ensures t.before < ceiling && t.gained == None <==>
            t.before < ceiling && forall w :: w in t.offered ==> !Eligible(s, w) || Key(w, t.room) in s.tasks
  {
    var n := FirstFit(s, t.room, t.offered);
    FirstFitIsLeast(s, t.room, t.offered, n);
    if n == |t.offered| {
      forall w | w in t.offered ensures !Takes(s, t.room, w) {
        var i :| 0 <= i < |t.offered| && t.offered[i] == w;
      }
    } else {
      assert t.offered[n] in t.offered && Takes(s, t.room, t.offered[n]);
    }
  }

  /** A worker on the list of the first turn is still on that of turn i, or was not eligible
      at an earlier turn. */
  lemma {:induction false} OfferedOrErased(log: seq<Step>, turns: seq<Turn>, ceiling: int, minimum: int, i: nat,
                                           w: WorkerId) returns (j: nat)
    requires TurnsFollow(log, turns, ceiling, minimum) && i < |turns| && w in turns[0].offered
    ensures j <= i && (j == i ==> w in turns[i].offered)
    ensures j < i ==> !Eligible(StateAt(log, turns[j]), w)
  {
    hide TurnDecides, Replay, StateAt, Eligible, Scanned;
    j := i;
    if i > 0 {
      j := OfferedOrErased(log, turns, ceiling, minimum, i - 1, w);
      if j == i - 1 {
        var t, s := turns[j], StateAt(log, turns[j]);
        assert TurnFollows(log, turns, j, ceiling, minimum);
        if t.before >= ceiling {
          j := i;
        } else if Eligible(s, w) {
          ScannedKeeps(s, t.offered, FirstFit(s, t.room, t.offered), w);
          j := i;
        }
      }
    }
  }

  // ----- the list keeps its order -----

  /** a is b with some items left out. */
  predicate Thinned<T(==)>(a: seq<T>, b: seq<T>) {
    a == [] || (b != [] && ((a[0] == b[0] && Thinned(a[1..], b[1..])) || Thinned(a, b[1..])))
  }

  lemma {:induction false} ThinnedSelf<T>(a: seq<T>)
    ensures Thinned(a, a)
  {
    if a != [] {
      ThinnedSelf(a[1..]);
    }
  }

  lemma {:induction false} ThinnedBefore<T>(a: seq<T>, b: seq<T>, c: seq<T>)
    requires Thinned(a, b)
    ensures Thinned(a + c, b + c)
    decreases |b|
  {
    if a == [] {
      assert a + c == c;
      ThinnedSelf(c);
      ThinnedBehind(c, b, c);
    } else {
      assert (b + c)[1..] == b[1..] + c && (a + c)[1..] == a[1..] + c;
      if a[0] == b[0] && Thinned(a[1..], b[1..]) {
        ThinnedBefore(a[1..], b[1..], c);
      } else {
        ThinnedBefore(a, b[1..], c);
      }
    }
  }

  lemma {:induction false} ThinnedBehind<T>(a: seq<T>, b: seq<T>, c: seq<T>)
    requires Thinned(a, c)
    ensures Thinned(a, b + c)
    decreases |b|
  {
    if b == [] {
      assert b + c == c;
    } else {
      assert (b + c)[1..] == b[1..] + c;
      ThinnedBehind(a, b[1..], c);
    }
  }

  lemma {:induction false} ThinnedTwice<T>(a: seq<T>, b: seq<T>, c: seq<T>)
    requires Thinned(a, b) && Thinned(b, c)
    ensures Thinned(a, c)
    decreases |b| + |c|
  {
    if a != [] {
      if b[0] == c[0] && Thinned(b[1..], c[1..]) {
        if a[0] == b[0] && Thinned(a[1..], b[1..]) {
          ThinnedTwice(a[1..], b[1..], c[1..]);
        } else {
          ThinnedTwice(a, b[1..], c[1..]);
        }
      } else {
        ThinnedTwice(a, b, c[1..]);
      }
    }
  }

  lemma {:induction false} ThinnedMembers<T>(a: seq<T>, b: seq<T>)
    requires Thinned(a, b)
    ensures forall x :: x in a ==> x in b
    decreases |b|
  {
    if a != [] {
      if a[0] == b[0] && Thinned(a[1..], b[1..]) {
        ThinnedMembers(a[1..], b[1..]);
        assert forall x :: x in a ==> x == a[0] || x in a[1..];
      } else {
        ThinnedMembers(a, b[1..]);
      }
    }
  }

  lemma DistinctRest<T>(s: seq<T>)
    requires Distinct(s) && s != []
    ensures Distinct(s[1..]) && s[0] !in s[1..]
  {
  }

  /** What comes earlier in the one comes earlier in the other. */
  lemma {:induction false} ThinnedInOrder<T>(a: seq<T>, b: seq<T>, m: nat, n: nat, x: nat, y: nat)
    requires Thinned(a, b) && Distinct(b) && m < |a| && n < |a| && x < y < |b| && a[m] == b[x] && a[n] == b[y]
    ensures m < n
    decreases |b|
  {
    var rest := b[1..];
    DistinctRest(b);
    assert rest[y - 1] == b[y] && (x > 0 ==> rest[x - 1] == b[x]);
    if a[0] == b[0] && Thinned(a[1..], rest) {
      ThinnedMembers(a[1..], rest);
      assert m > 0 ==> a[1..][m - 1] == a[m];
      assert n > 0 ==> a[1..][n - 1] == a[n];
      if m > 0 {
        assert x > 0 && n > 0;
        ThinnedInOrder(a[1..], rest, m - 1, n - 1, x - 1, y - 1);
      }
    } else {
      ThinnedMembers(a, rest);
      assert a[m] in rest && x > 0;
      ThinnedInOrder(a, rest, m, n, x - 1, y - 1);
    }
  }

  lemma {:induction false} EligibleOfThinned(s: State, list: seq<WorkerId>)
    ensures Thinned(EligibleOf(s, list), list)
  {
    if list != [] {
      var rest := EligibleOf(s, list[1..]);
      EligibleOfThinned(s, list[1..]);
      if Eligible(s, list[0]) {
        assert ([list[0]] + rest)[1..] == rest;
      } else {
        assert EligibleOf(s, list) == rest;
      }
    }
  }

  /** The list the next turn sees is this turn's with some workers left out. */
  lemma OfferedNextThinned(s: State, t: Turn, ceiling: int)
    ensures Thinned(OfferedNext(s, t, ceiling), t.offered)
  {
    hide EligibleOf;
    if t.before >= ceiling {
      ThinnedSelf(t.offered);
    } else {
      var n := FirstFit(s, t.room, t.offered);
      assert t.offered == t.offered[..n] + t.offered[n..];
      EligibleOfThinned(s, t.offered[..n]);
      ThinnedBefore(EligibleOf(s, t.offered[..n]), t.offered[..n], t.offered[n..]);
    }
  }

  /** No turn's list is ever reordered: it is the first turn's with some workers left out. */
  lemma {:induction false} OfferedInOrder(log: seq<Step>, turns: seq<Turn>, ceiling: int, minimum: int, i: nat)
    requires TurnsFollow(log, turns, ceiling, minimum) && i < |turns|
    ensures Thinned(turns[i].offered, turns[0].offered)
  {
    hide TurnDecides, Replay, StateAt, OfferedNext;
    if i == 0 {
      ThinnedSelf(turns[0].offered);
    } else {
      OfferedInOrder(log, turns, ceiling, minimum, i - 1);
      assert TurnFollows(log, turns, i - 1, ceiling, minimum);
      OfferedNextThinned(StateAt(log, turns[i - 1]), turns[i - 1], ceiling);
      ThinnedTwice(turns[i].offered, turns[i - 1].offered, turns[0].offered);
    }
  }

  // ----- sorting -----

  predicate Distinct<T(==)>(s: seq<T>) {
    forall i, j :: 0 <= i < j < |s| ==> s[i] != s[j]
  }

  predicate SortedBy<T>(s: seq<T>, key: map<T, int>)
    requires forall x :: x in s ==> x in key
  {
    forall i, j :: 0 <= i < j < |s| ==> key[s[i]] <= key[s[j]]
  }

  /** std::sort, with the comparison given by a key. */
  method Sort<T(==)>(items: seq<T>, key: map<T, int>) returns (sorted: seq<T>)
    requires Distinct(items) && forall x :: x in items ==> x in key
    ensures |sorted| == |items| && Distinct(sorted)
    ensures forall x :: x in sorted <==> x in items
    ensures SortedBy(sorted, key)
  {
    sorted := [];
    for i := 0 to |items|
      invariant |sorted| == i && Distinct(sorted)
      invariant forall x :: x in sorted <==> x in items[..i]
      invariant forall x :: x in sorted ==> x in key
      invariant SortedBy(sorted, key)
    {
      var x := items[i];
      var p := 0;
      while p < |sorted| && key[sorted[p]] <= key[x]
        invariant p <= |sorted|
        invariant forall j :: 0 <= j < p ==> key[sorted[j]] <= key[x]
      {
        p := p + 1;
      }
      assert items[..i + 1] == items[..i] + [x];
      assert forall j :: 0 <= j < i ==> items[..i][j] == items[j] != x;
      assert x !in items[..i] && x !in sorted;
      sorted := sorted[..p] + [x] + sorted[p..];
    }
    assert items[..|items|] == items;
  }
}
