/** The de-duplication window (src/supervisor/deduplicate_context.cpp) and the data path
    that uses it (src/supervisor/global_context.cpp).

    A multi-index container keeps one set of entries in two indices: insertion order, and
    a unique hash by checksum. */
module Dedup {
  import opened Bytes
  import Wire

  type Time = int
  type Checksum = int32

  datatype Entry = Entry(value: Checksum, addTime: Time)

  // ----- reference -----

  function Values(entries: seq<Entry>): set<Checksum> {
    set e | e in entries :: e.value
  }

  predicate Unique(entries: seq<Entry>) {
    forall i, j :: 0 <= i < j < |entries| ==> entries[i].value != entries[j].value
  }

  lemma ValuesLast(entries: seq<Entry>, e: Entry)
    ensures Values(entries + [e]) == Values(entries) + {e.value}
  {
    assert forall d :: d in entries + [e] <==> d in entries || d == e;
    assert e in entries + [e];
    forall v | v in Values(entries) ensures v in Values(entries + [e]) {
      var d :| d in entries && d.value == v;
      assert d in entries + [e];
    }
  }

  function Add(entries: seq<Entry>, c: Checksum, t: Time): seq<Entry> {
    if c in Values(entries) then entries else entries + [Entry(c, t)]
  }

  /** Drops entries from the front while they are older than exp. */
  function DropStale(entries: seq<Entry>, exp: Time): seq<Entry> {
    if entries == [] || entries[0].addTime >= exp then entries else DropStale(entries[1..], exp)
  }

  /** The entries that are not older than exp. */
  function Fresh(entries: seq<Entry>, exp: Time): seq<Entry> {
    if entries == [] then []
    else if entries[0].addTime >= exp then [entries[0]] + Fresh(entries[1..], exp)
    else Fresh(entries[1..], exp)
  }

  /** No entry older than exp stands behind one that is not. */
  predicate StaleFirst(entries: seq<Entry>, exp: Time) {
    forall i, j :: 0 <= i < j < |entries| ==> entries[j].addTime < exp ==> entries[i].addTime < exp
  }

  lemma {:induction false} FreshAll(entries: seq<Entry>, exp: Time)
    ensures Fresh(entries, exp) == entries <==> forall e :: e in entries ==> e.addTime >= exp
    ensures |Fresh(entries, exp)| <= |entries|
  {
    if entries != [] {
      FreshAll(entries[1..], exp);
      assert forall e :: e in entries <==> e == entries[0] || e in entries[1..];
      if entries[0].addTime >= exp {
        assert entries == [entries[0]] + entries[1..];
        assert Fresh(entries, exp)[1..] == Fresh(entries[1..], exp);
      }
    }
  }

  /** An expiry leaves exactly the entries that are not too old when, and only when, the
      old ones are all in front. */
  lemma {:induction false} ExpiryExact(entries: seq<Entry>, exp: Time)
    ensures DropStale(entries, exp) == Fresh(entries, exp) <==> StaleFirst(entries, exp)
  {
    if entries != [] {
      var rest := entries[1..];
      if entries[0].addTime >= exp {
        FreshAll(entries, exp);
        if StaleFirst(entries, exp) {
          forall e | e in entries ensures e.addTime >= exp {
            var j :| 0 <= j < |entries| && entries[j] == e;
          }
        } else {
          var i, j :| 0 <= i < j < |entries| && entries[j].addTime < exp <= entries[i].addTime;
          assert entries[j] in entries;
        }
      } else {
        ExpiryExact(rest, exp);
        if StaleFirst(rest, exp) {
          forall i, j | 0 <= i < j < |entries| && entries[j].addTime < exp ensures entries[i].addTime < exp {
            if i > 0 {
              assert rest[i - 1] == entries[i] && rest[j - 1] == entries[j];
            }
          }
        } else {
          var i, j :| 0 <= i < j < |rest| && rest[j].addTime < exp <= rest[i].addTime;
          assert rest[i] == entries[i + 1] && rest[j] == entries[j + 1];
        }
      }
    }
  }

  /** With add times that never decrease the condition always holds. */
  lemma ExpiryOfOrderedEntries(entries: seq<Entry>, exp: Time)
    requires forall i, j :: 0 <= i < j < |entries| ==> entries[i].addTime <= entries[j].addTime
    ensures DropStale(entries, exp) == Fresh(entries, exp)
  {
    ExpiryExact(entries, exp);
  }

  lemma {:induction false} DropStaleKeeps(entries: seq<Entry>, exp: Time)
    ensures var left := DropStale(entries, exp);
            && |left| <= |entries| && left == entries[|entries| - |left|..]
            && (forall e :: e in entries && e !in left ==> e.addTime < exp)
            && (Unique(entries) ==> Unique(left))
  {
    if entries != [] && entries[0].addTime < exp {
      DropStaleKeeps(entries[1..], exp);
    }
  }

  // ----- runs -----

  datatype Op = CheckAndAdd(checksum: Checksum, at: Time) | CheckExpire(now: Time, threshold: int)

  function Step(entries: seq<Entry>, op: Op): seq<Entry> {
    match op
    case CheckAndAdd(c, t) => Add(entries, c, t)
    case CheckExpire(now, threshold) => DropStale(entries, now - threshold)
  }

  function Run(ops: seq<Op>): seq<Entry>
    decreases |ops|
  {
    if ops == [] then [] else Step(Run(ops[..|ops| - 1]), ops[|ops| - 1])
  }

  /** The i-th operation is an add that was accepted. */
  predicate Accepted(ops: seq<Op>, i: nat) {
    i < |ops| && ops[i].CheckAndAdd? && ops[i].checksum !in Values(Run(ops[..i]))
  }

  lemma RunNext(ops: seq<Op>, i: nat)
    requires i < |ops|
    ensures Run(ops[..i + 1]) == Step(Run(ops[..i]), ops[i])
  {
    assert ops[..i + 1][..i] == ops[..i];
  }

  /** An entry stays until an expiry whose clock is past it. */
  lemma {:induction false} EntryStays(ops: seq<Op>, e: Entry, i: nat, j: nat)
    requires i <= j <= |ops| && e in Run(ops[..i])
    requires forall k :: i <= k < j && ops[k].CheckExpire? ==> ops[k].now <= e.addTime + ops[k].threshold
    ensures e in Run(ops[..j])
    decreases j - i
  {
    if i < j {
      RunNext(ops, i);
      var before := Run(ops[..i]);
      if ops[i].CheckExpire? {
        DropStaleKeeps(before, ops[i].now - ops[i].threshold);
      }
      EntryStays(ops, e, i + 1, j);
    }
  }

  /** If one checksum is accepted twice, at times t1 and then t2, an expiry between the two
      had a clock past t1 plus the threshold. */
  lemma AcceptedTwice(ops: seq<Op>, i: nat, j: nat) returns (k: nat)
    requires i < j && Accepted(ops, i) && Accepted(ops, j) && ops[i].checksum == ops[j].checksum
    ensures i < k < j && ops[k].CheckExpire? && ops[k].now > ops[i].at + ops[k].threshold
  {
    var e := Entry(ops[i].checksum, ops[i].at);
    RunNext(ops, i);
    if expiry :| i < expiry < j && ops[expiry].CheckExpire? && ops[expiry].now > e.addTime + ops[expiry].threshold {
      k := expiry;
    } else {
      EntryStays(ops, e, i + 1, j);
      assert false;
    }
  }

  lemma {:induction false} RunUnique(ops: seq<Op>)
    ensures Unique(Run(ops))
    decreases |ops|
  {
    if ops != [] {
      var n := |ops| - 1;
      var before := Run(ops[..n]);
      RunUnique(ops[..n]);
      if ops[n].CheckExpire? {
        DropStaleKeeps(before, ops[n].now - ops[n].threshold);
      } else {
        forall i | 0 <= i < |before| ensures before[i].value in Values(before) {
          assert before[i] in before;
        }
      }
    }
  }

  // ----- the program -----

  class DeduplicateContext {
    var sequence: seq<Entry>   // _container.get<0>()
    var index: set<Checksum>   // the unique hashed index
    ghost var ops: seq<Op>

    /** Both indices hold the same entries, and they are those of the run so far. */
    ghost predicate Valid()
      reads this
    {
      index == Values(sequence) && Unique(sequence) && sequence == Run(ops)
    }

    constructor ()
      ensures Valid() && ops == []
    {
      sequence, index, ops := [], {}, [];
    }

    method CheckAndAddAt(c: Checksum, t: Time) returns (added: bool)
      requires Valid()
      modifies this
      ensures Valid() && ops == old(ops) + [CheckAndAdd(c, t)]
      ensures added <==> Accepted(ops, |old(ops)|)
    {
      hide Values, Unique, Run;
      ghost var before := ops;
      ops := ops + [CheckAndAdd(c, t)];
      assert ops[..|before|] == before;
      RunNext(ops, |before|);
      assert ops[..|before| + 1] == ops;
      RunUnique(ops);
      ValuesLast(sequence, Entry(c, t));
      added := c !in index;
      if added {
        sequence := sequence + [Entry(c, t)];
        index := index + {c};
      }
    }

    method Expire(now: Time, threshold: int)
      requires Valid()
      modifies this
      ensures Valid() && ops == old(ops) + [CheckExpire(now, threshold)]
      ensures sequence == DropStale(old(sequence), now - threshold)
    {
      ghost var before := ops;
      var exp := now - threshold;
      while sequence != [] && sequence[0].addTime < exp
        invariant index == Values(sequence) && Unique(sequence) && ops == before
        invariant DropStale(sequence, exp) == DropStale(old(sequence), exp)
        decreases |sequence|
      {
        var first, rest := sequence[0], sequence[1..];
        assert Values(rest) == index - {first.value} by {
          assert forall e :: e in sequence <==> e == first || e in rest;
          assert forall e :: e in rest ==> e.value != first.value;
        }
        sequence, index := rest, index - {first.value};
      }
      ops := ops + [CheckExpire(now, threshold)];
      assert ops[..|before|] == before;
    }
  }

  // ----- the data path -----

  /** A message of a worker as it reaches on_worker_data, or an expiry in between. */
  datatype Traffic =
    | Message(room: int32, msg: Wire.BorrowedMessage, at: Time)
    | Expiry(now: Time, threshold: int)

  /** What the window is asked: messages with checksum zero bypass it. */
  function Asked(t: Traffic): seq<Op> {
    match t
    case Message(_, msg, at) => if msg.crc32 == 0 then [] else [CheckAndAdd(Unconverted(msg.crc32), at)]
    case Expiry(now, threshold) => [CheckExpire(now, threshold)]
  }

  function AllAsked(ts: seq<Traffic>): seq<Op>
    decreases |ts|
  {
    if ts == [] then [] else AllAsked(ts[..|ts| - 1]) + Asked(ts[|ts| - 1])
  }

  /** The i-th message is passed on to the broker. */
  predicate Published(ts: seq<Traffic>, i: nat) {
    i < |ts| && ts[i].Message?
    && (ts[i].msg.crc32 == 0 || Unconverted(ts[i].msg.crc32) !in Values(Run(AllAsked(ts[..i]))))
  }

  lemma {:induction false} AskedPosition(ts: seq<Traffic>, i: nat)
    requires i < |ts|
    ensures |AllAsked(ts[..i])| + |Asked(ts[i])| <= |AllAsked(ts)|
    ensures AllAsked(ts[..i]) + Asked(ts[i]) <= AllAsked(ts)
    decreases |ts|
  {
    var n := |ts| - 1;
    if i < n {
      AskedPosition(ts[..n], i);
      assert ts[..n][..i] == ts[..i];
    }
  }

  /** Every question asked was asked by some message or expiry. */
  lemma {:induction false} WhoAsked(ts: seq<Traffic>, k: nat) returns (i: nat)
    requires k < |AllAsked(ts)|
    ensures i < |ts| && Asked(ts[i]) == [AllAsked(ts)[k]] && |AllAsked(ts[..i])| == k
    decreases |ts|
  {
    var n := |ts| - 1;
    if k < |AllAsked(ts[..n])| {
      i := WhoAsked(ts[..n], k);
      assert ts[..n][..i] == ts[..i];
    } else {
      i := n;
    }
  }

  lemma {:induction false} AskedOrder(ts: seq<Traffic>, i: nat, j: nat)
    requires i <= j <= |ts|
    ensures |AllAsked(ts[..i])| <= |AllAsked(ts[..j])|
    decreases j - i
  {
    if i < j {
      assert ts[..i + 1][..i] == ts[..i];
      AskedOrder(ts, i + 1, j);
    }
  }

  /** A message is published at most once per window: if two messages of one nonzero
      checksum, as their senders computed it, are both published, an expiry between them
      had a clock past the first one's arrival plus the threshold.  That the supervisor
      reads the checksum in the wrong byte order does not matter. */
  lemma PublishedTwice(ts: seq<Traffic>, i: nat, j: nat) returns (k: nat)
    requires i < j && Published(ts, i) && Published(ts, j)
    requires ts[i].msg.crc32 == ts[j].msg.crc32 != 0
    ensures i < k < j && ts[k].Expiry? && ts[k].now > ts[i].at + ts[k].threshold
  {
    assert i < j < |ts|;
    hide AllAsked, Published, Accepted, Unconverted, Run, Values;
    PublishedIsAccepted(ts, i);
    PublishedIsAccepted(ts, j);
    AskedBefore(ts, i, j);
    var e := AcceptedTwice(AllAsked(ts), |AllAsked(ts[..i])|, |AllAsked(ts[..j])|);
    k := WhoAsked(ts, e);
    if k <= i {
      AskedOrder(ts, k, i);
    } else if k >= j {
      AskedOrder(ts, j, k);
    }
  }

  lemma AskedBefore(ts: seq<Traffic>, i: nat, j: nat)
    requires i < j <= |ts|
    ensures |AllAsked(ts[..i])| + |Asked(ts[i])| <= |AllAsked(ts[..j])|
  {
    assert ts[..j][i] == ts[i] && ts[..j][..i] == ts[..i];
    AskedPosition(ts[..j], i);
  }

  /** A published message of nonzero checksum is an accepted add. */
  lemma PublishedIsAccepted(ts: seq<Traffic>, i: nat)
    requires Published(ts, i) && ts[i].msg.crc32 != 0
    ensures var a := |AllAsked(ts[..i])|;
            && Accepted(AllAsked(ts), a)
            && AllAsked(ts)[a] == CheckAndAdd(Unconverted(ts[i].msg.crc32), ts[i].at)
            && Asked(ts[i]) == [AllAsked(ts)[a]]
  {
    hide AllAsked, Run, Values;
    var ops, before := AllAsked(ts), AllAsked(ts[..i]);
    AskedPosition(ts, i);
    assert ops[..|before|] == before;
    assert (before + Asked(ts[i]))[|before|] == Asked(ts[i])[0];
  }

  /** Different checksums never stand in each other's way: a message is held back only
      because one with the same checksum was published before it. */
  lemma HeldBackByOwnChecksum(ts: seq<Traffic>, j: nat) returns (i: nat)
    requires j < |ts| && ts[j].Message? && !Published(ts, j)
    ensures i < j && Published(ts, i) && ts[i].msg.crc32 == ts[j].msg.crc32
  {
    var ops := AllAsked(ts[..j]);
    var c := Unconverted(ts[j].msg.crc32);
    var e :| e in Run(ops) && e.value == c;
    var k := EntryWasAccepted(ops, e);
    i := WhoAsked(ts[..j], k);
    AskedPosition(ts[..j], i);
    assert ts[..j][..i] == ts[..i] && ops[..k] == AllAsked(ts[..i]);
    UnconvertedInjective(ts[i].msg.crc32, ts[j].msg.crc32);
  }

  lemma {:induction false} EntryWasAccepted(ops: seq<Op>, e: Entry) returns (k: nat)
    requires e in Run(ops)
    ensures Accepted(ops, k) && ops[k] == CheckAndAdd(e.value, e.addTime)
    ensures forall m :: k < m <= |ops| ==> e in Run(ops[..m])
    decreases |ops|
  {
    assert ops[..|ops|] == ops;
    var n := |ops| - 1;
    var before := Run(ops[..n]);
    if e in before {
      k := EntryWasAccepted(ops[..n], e);
      assert ops[..n][..k] == ops[..k];
      forall m | k < m <= |ops| ensures e in Run(ops[..m]) {
        if m <= n {
          assert ops[..n][..m] == ops[..m];
        }
      }
    } else {
      if ops[n].CheckExpire? {
        DropStaleKeeps(before, ops[n].now - ops[n].threshold);
      }
      k := n;
    }
  }

  /** Adds come in with times that never decrease. */
  predicate OrderedAdds(ops: seq<Op>) {
    forall i, j :: 0 <= i < j < |ops| && ops[i].CheckAndAdd? && ops[j].CheckAndAdd? ==> ops[i].at <= ops[j].at
  }

  predicate OrderedEntries(entries: seq<Entry>) {
    forall i, j :: 0 <= i < j < |entries| ==> entries[i].addTime <= entries[j].addTime
  }

  /** ... and so do the entries of the window, which are all of earlier adds. */
  lemma {:induction false} RunOrdered(ops: seq<Op>)
    requires OrderedAdds(ops)
    ensures OrderedEntries(Run(ops))
    ensures forall e :: e in Run(ops) ==> exists i :: 0 <= i < |ops| && ops[i] == CheckAndAdd(e.value, e.addTime)
    decreases |ops|
  {
    if ops != [] {
      var n := |ops| - 1;
      RunOrdered(ops[..n]);
      forall e | e in Run(ops[..n]) ensures exists i :: 0 <= i < |ops| && ops[i] == CheckAndAdd(e.value, e.addTime) {
        var i :| 0 <= i < n && ops[..n][i] == CheckAndAdd(e.value, e.addTime);
        assert ops[i] == CheckAndAdd(e.value, e.addTime);
      }
      StepOrdered(Run(ops[..n]), ops[n]);
    }
  }

  lemma StepOrdered(entries: seq<Entry>, op: Op)
    requires OrderedEntries(entries)
    requires op.CheckAndAdd? ==> forall e :: e in entries ==> e.addTime <= op.at
    ensures OrderedEntries(Step(entries, op))
    ensures forall e :: e in Step(entries, op) ==> e in entries || op == CheckAndAdd(e.value, e.addTime)
    ensures op.CheckExpire? ==> forall e :: e in Step(entries, op) ==> e.addTime >= op.now - op.threshold
  {
    hide Values, DropStale;
    if op.CheckExpire? {
      ExpiryOrdered(entries, op.now - op.threshold);
      NothingStale(entries, op.now - op.threshold);
    }
  }

  lemma ExpiryOrdered(entries: seq<Entry>, exp: Time)
    requires OrderedEntries(entries)
    ensures OrderedEntries(DropStale(entries, exp)) && forall e :: e in DropStale(entries, exp) ==> e in entries
  {
    DropStaleKeeps(entries, exp);
    hide DropStale, Unique;
    var left := DropStale(entries, exp);
    var k := |entries| - |left|;
    assert forall i :: 0 <= i < |left| ==> left[i] == entries[k + i];
  }

  lemma {:induction false} NothingStale(entries: seq<Entry>, exp: Time)
    requires OrderedEntries(entries)
    ensures forall e :: e in DropStale(entries, exp) ==> e.addTime >= exp
  {
    if entries != [] && entries[0].addTime < exp {
      NothingStale(entries[1..], exp);
    }
  }

  /** The i-th operation was an accepted add of the same checksum as c, and no expiry since
      had a clock past it plus the threshold. */
  ghost predicate StillInWindow(ops: seq<Op>, i: nat, c: Checksum) {
    && Accepted(ops, i) && ops[i].checksum == c
    && forall k :: i < k < |ops| && ops[k].CheckExpire? ==> ops[k].now - ops[k].threshold <= ops[i].at
  }

  /** A checksum is in the window exactly when it was accepted and nothing has expired it. */
  lemma InWindowExactly(ops: seq<Op>, c: Checksum)
    requires OrderedAdds(ops)
    ensures c in Values(Run(ops)) <==> exists i: nat :: StillInWindow(ops, i, c)
  {
    assert ops[..|ops|] == ops;
    if c in Values(Run(ops)) {
      var e :| e in Run(ops) && e.value == c;
      var i := EntryWasAccepted(ops, e);
      forall k | i < k < |ops| && ops[k].CheckExpire? ensures ops[k].now - ops[k].threshold <= ops[i].at {
        assert OrderedAdds(ops[..k]);
        RunOrdered(ops[..k]);
        RunNext(ops, k);
        StepOrdered(Run(ops[..k]), ops[k]);
        assert e in Run(ops[..k + 1]);
      }
      assert StillInWindow(ops, i, c);
    }
    if i: nat :| StillInWindow(ops, i, c) {
      var e := Entry(c, ops[i].at);
      RunNext(ops, i);
      assert e in Run(ops[..i + 1]);
      EntryStays(ops, e, i + 1, |ops|);
    }
  }

  /** A message that has arrived earlier, was published, and has not expired since. */
  ghost predicate Remembered(ts: seq<Traffic>, i: nat, j: nat) {
    && i < j < |ts| && ts[j].Message? && Published(ts, i) && ts[i].msg.crc32 == ts[j].msg.crc32 != 0
    && forall k :: i < k < j && ts[k].Expiry? ==> ts[k].now - ts[k].threshold <= ts[i].at
  }

  /** A message is held back exactly when one of the same nonzero checksum, published before
      it, has not expired since. */
  lemma HeldBackExactly(ts: seq<Traffic>, j: nat)
    requires j < |ts| && ts[j].Message?
    requires forall a, b :: 0 <= a < b < |ts| && ts[a].Message? && ts[b].Message? ==> ts[a].at <= ts[b].at
    ensures !Published(ts, j) <==> exists i: nat :: Remembered(ts, i, j)
  {
    var ops := AllAsked(ts[..j]);
    var c := Unconverted(ts[j].msg.crc32);
    UnconvertedZero(ts[j].msg.crc32);
    AskedInOrder(ts[..j]);
    InWindowExactly(ops, c);
    if !Published(ts, j) {
      var n: nat :| StillInWindow(ops, n, c);
      var i := RememberedFrom(ts, j, n);
    }
    if i: nat :| Remembered(ts, i, j) {
      RememberedTo(ts, i, j);
    }
  }

  lemma {:induction false} AskedInOrder(ts: seq<Traffic>)
    requires forall a, b :: 0 <= a < b < |ts| && ts[a].Message? && ts[b].Message? ==> ts[a].at <= ts[b].at
    ensures OrderedAdds(AllAsked(ts))
    ensures forall k :: 0 <= k < |AllAsked(ts)| && AllAsked(ts)[k].CheckAndAdd? ==>
      exists i :: 0 <= i < |ts| && ts[i].Message? && ts[i].at == AllAsked(ts)[k].at
    decreases |ts|
  {
    if ts != [] {
      var n := |ts| - 1;
      AskedInOrder(ts[..n]);
      var before, all := AllAsked(ts[..n]), AllAsked(ts);
      forall k | 0 <= k < |all| && all[k].CheckAndAdd?
        ensures exists i :: 0 <= i < |ts| && ts[i].Message? && ts[i].at == all[k].at
      {
        if k < |before| {
          assert all[k] == before[k];
          var i :| 0 <= i < n && ts[..n][i].Message? && ts[..n][i].at == before[k].at;
          assert ts[i] == ts[..n][i];
        } else {
          assert ts[n].Message? && ts[n].at == all[k].at;
        }
      }
    }
  }

  lemma RememberedFrom(ts: seq<Traffic>, j: nat, n: nat) returns (i: nat)
    requires j < |ts| && ts[j].Message? && ts[j].msg.crc32 != 0
    requires StillInWindow(AllAsked(ts[..j]), n, Unconverted(ts[j].msg.crc32))
    ensures Remembered(ts, i, j)
  {
    hide Run, AllAsked, Values;
    var before := ts[..j];
    var ops := AllAsked(before);
    i := WhoAsked(before, n);
    AskedPosition(before, i);
    assert before[..i] == ts[..i] && ops[..n] == AllAsked(ts[..i]);
    UnconvertedInjective(ts[i].msg.crc32, ts[j].msg.crc32);
    forall k | i < k < j && ts[k].Expiry? ensures ts[k].now - ts[k].threshold <= ts[i].at {
      var m := |AllAsked(before[..k])|;
      AskedPosition(before, k);
      AskedBefore(before, i, k);
      assert ops[m] == (AllAsked(before[..k]) + Asked(before[k]))[m] == Asked(ts[k])[0];
    }
  }

  lemma RememberedTo(ts: seq<Traffic>, i: nat, j: nat)
    requires Remembered(ts, i, j)
    ensures StillInWindow(AllAsked(ts[..j]), |AllAsked(ts[..i])|, Unconverted(ts[j].msg.crc32))
  {
    hide Run, AllAsked, Values;
    var before := ts[..j];
    var ops, n := AllAsked(before), |AllAsked(ts[..i])|;
    assert before[..i] == ts[..i] && Published(before, i);
    PublishedIsAccepted(before, i);
    forall k | n < k < |ops| && ops[k].CheckExpire? ensures ops[k].now - ops[k].threshold <= ops[n].at {
      var m := WhoAsked(before, k);
      if m <= i {
        AskedOrder(before, m, i);
      }
    }
  }
}
