/** The socket write queue (src/shared/asio_socket_write_helper.cpp): buffers wait in a
    deque, one gathered write is in flight at a time, and completions release buffers
    from the front.

    `Queue` and `Apply` describe every step the executor can take; the class below
    performs them.  The theorems are about all runs of `Apply`. */
module WriteQueue {
  import opened Bytes
  import opened Prelude

  datatype Buffer = Buffer(id: nat, bytes: seq<byte>)

  /** An outstanding async_write: how many buffers its completion will release, what it
      writes, and which socket it was started on. */
  datatype Flight = Flight(count: nat, bytes: seq<byte>, socket: nat)

  datatype Queue = Queue(
    live: bool,               // the socket can be locked
    socket: nat,              // how many sockets have been set
    posted: seq<Buffer>,      // accepted, waiting for the executor
    waiting: seq<Buffer>,     // _write_queue
    flights: seq<Flight>,
    released: seq<Buffer>,    // passed to their deleter, in order
    accepted: seq<Buffer>,    // every buffer handed to write
    due: seq<Buffer>,         // those the current socket is expected to carry
    wire: seq<byte>)          // bytes written to the current socket

  datatype Outcome =
    | Success
    | Aborted(written: nat)
    | Error(written: nat, liveAfter: bool)  // the close handler may drop the socket

  datatype Step =
    | Write(buffer: Buffer)
    | RunPosted
    | Complete(flight: nat, outcome: Outcome)
    | Reset(live: bool)
    | LoseSocket

  function Contents(buffers: seq<Buffer>): (parts: seq<seq<byte>>)
    ensures |parts| == |buffers| && forall i :: 0 <= i < |parts| ==> parts[i] == buffers[i].bytes
  {
    seq(|buffers|, i requires 0 <= i < |buffers| => buffers[i].bytes)
  }

  function BytesOf(buffers: seq<Buffer>): seq<byte> {
    Flatten(Contents(buffers))
  }

  function Initial(live: bool): Queue {
    Queue(live, 0, [], [], [], [], [], [], [])
  }

  function StartWrite(q: Queue): Queue {
    if !q.live then q
    else q.(flights := q.flights + [Flight(|q.waiting|, BytesOf(q.waiting), q.socket)])
  }

  function Release(q: Queue, n: nat): Queue {
    var k := Min(n, |q.waiting|);
    q.(released := q.released + q.waiting[..k], waiting := q.waiting[k..])
  }

  function OnWire(q: Queue, f: Flight, written: nat): Queue {
    if f.socket == q.socket then q.(wire := q.wire + f.bytes[..Min(written, |f.bytes|)]) else q
  }

  function Accept(q: Queue, b: Buffer): Queue {
    if q.live then q.(accepted := q.accepted + [b], due := q.due + [b], posted := q.posted + [b])
    else q.(accepted := q.accepted + [b], released := q.released + [b])
  }

  function Enqueue(q: Queue): Queue
    requires q.posted != []
  {
    var next := q.(waiting := q.waiting + [q.posted[0]], posted := q.posted[1..]);
    if q.waiting == [] then StartWrite(next) else next
  }

  function Completed(q: Queue, i: nat, outcome: Outcome): Queue
    requires i < |q.flights|
  {
    var f := q.flights[i];
    var written := if outcome.Success? then |f.bytes| else outcome.written;
    var landed := OnWire(q, f, written).(flights := q.flights[..i] + q.flights[i + 1..]);
    var freed := Release(landed, f.count);
    if outcome.Aborted? then freed
    else
      var open := if outcome.Error? then freed.(live := outcome.liveAfter) else freed;
      if open.waiting == [] then open else StartWrite(open)
  }

  function ResetSocket(q: Queue, live: bool): Queue {
    Release(q, |q.waiting|).(live := live, socket := q.socket + 1, due := q.posted, wire := [])
  }

  function Apply(q: Queue, s: Step): Queue {
    match s
    case Write(b) => Accept(q, b)
    case RunPosted => if q.posted == [] then q else Enqueue(q)
    case Complete(i, outcome) => if i < |q.flights| then Completed(q, i, outcome) else q
    case Reset(live) => ResetSocket(q, live)
    case LoseSocket => q.(live := false)
  }

  function Run(q: Queue, steps: seq<Step>): Queue
    decreases |steps|
  {
    if steps == [] then q
    else Apply(Run(q, steps[..|steps| - 1]), steps[|steps| - 1])
  }

  // ----- every run: each buffer is released exactly once -----

  /** Accepted buffers are waiting or have been released, each in exactly one place. */
  ghost predicate Accounted(q: Queue) {
    multiset(q.accepted) == multiset(q.posted) + multiset(q.waiting) + multiset(q.released)
  }

  lemma SplitMultiset(s: seq<Buffer>, k: nat)
    requires k <= |s|
    ensures multiset(s) == multiset(s[..k]) + multiset(s[k..])
  {
    assert s == s[..k] + s[k..];
  }

  lemma ReleaseAccounted(q: Queue, n: nat)
    ensures Accounted(q) <==> Accounted(Release(q, n))
  {
    SplitMultiset(q.waiting, Min(n, |q.waiting|));
  }

  lemma EnqueueAccounted(q: Queue)
    requires Accounted(q) && q.posted != []
    ensures Accounted(Enqueue(q))
  {
    SplitMultiset(q.posted, 1);
    assert q.posted[..1] == [q.posted[0]];
  }

  lemma CompletedAccounted(q: Queue, i: nat, outcome: Outcome)
    requires Accounted(q) && i < |q.flights|
    ensures Accounted(Completed(q, i, outcome))
  {
    ReleaseAccounted(q, q.flights[i].count);
  }

  lemma StepAccounted(q: Queue, s: Step)
    requires Accounted(q)
    ensures Accounted(Apply(q, s))
  {
    hide Enqueue, Completed, Release;
    match s
    case Write(b) =>
    case RunPosted => if q.posted != [] { EnqueueAccounted(q); }
    case Complete(i, outcome) => if i < |q.flights| { CompletedAccounted(q, i, outcome); }
    case Reset(live) => ReleaseAccounted(q, |q.waiting|);
    case LoseSocket =>
  }

  lemma {:induction false} EveryBufferAccountedFor(live: bool, steps: seq<Step>)
    ensures Accounted(Run(Initial(live), steps))
    decreases |steps|
  {
    if steps != [] {
      EveryBufferAccountedFor(live, steps[..|steps| - 1]);
      StepAccounted(Run(Initial(live), steps[..|steps| - 1]), steps[|steps| - 1]);
    }
  }

  // ----- runs on one live socket: nothing is lost or reordered -----

  /** Written, waiting and posted bytes are exactly the bytes the socket should carry. */
  ghost predicate Intact(q: Queue) {
    q.wire + BytesOf(q.waiting) + BytesOf(q.posted) == BytesOf(q.due)
  }

  /** One write is in flight exactly when buffers wait, and it writes a prefix of them. */
  ghost predicate OneInFlight(q: Queue) {
    && |q.flights| == (if q.waiting == [] then 0 else 1)
    && forall f :: f in q.flights ==>
         f.socket == q.socket && 0 < f.count <= |q.waiting| && f.bytes == BytesOf(q.waiting[..f.count])
  }

  predicate Undisturbed(s: Step) {
    s.Write? || s.RunPosted? || (s.Complete? && s.outcome.Success?)
  }

  lemma BytesOfAppend(a: seq<Buffer>, b: seq<Buffer>)
    ensures BytesOf(a + b) == BytesOf(a) + BytesOf(b)
  {
    hide Flatten;
    assert Contents(a + b) == Contents(a) + Contents(b);
    FlattenAppend(Contents(a), Contents(b));
  }

  lemma BytesOfSplit(s: seq<Buffer>, k: nat)
    requires k <= |s|
    ensures BytesOf(s) == BytesOf(s[..k]) + BytesOf(s[k..])
  {
    assert s == s[..k] + s[k..];
    BytesOfAppend(s[..k], s[k..]);
  }

  lemma BytesOfOne(b: Buffer)
    ensures BytesOf([b]) == b.bytes
  {
    var none: seq<seq<byte>> := [];
    assert Contents([b]) == none + [b.bytes];
    FlattenLast(none, b.bytes);
  }

  ghost predicate Orderly(q: Queue) {
    q.live && OneInFlight(q) && Intact(q)
  }

  lemma AcceptOrderly(q: Queue, b: Buffer)
    requires Orderly(q)
    ensures Orderly(Accept(q, b))
  {
    hide BytesOf;
    AcceptIntact(q, b);
  }

  lemma AcceptIntact(q: Queue, b: Buffer)
    requires Intact(q)
    ensures Intact(Accept(q, b))
  {
    hide BytesOf;
    BytesOfAppend(q.posted, [b]);
    BytesOfAppend(q.due, [b]);
  }

  lemma EnqueueIntact(q: Queue)
    requires Intact(q) && q.posted != []
    ensures Intact(Enqueue(q))
  {
    hide BytesOf;
    var b := q.posted[0];
    BytesOfAppend(q.waiting, [b]);
    BytesOfSplit(q.posted, 1);
    assert q.posted[..1] == [b];
    assert BytesOf(q.waiting) + BytesOf([b]) + BytesOf(q.posted[1..])
        == BytesOf(q.waiting) + (BytesOf([b]) + BytesOf(q.posted[1..]));
  }

  lemma EnqueueOneInFlight(q: Queue)
    requires OneInFlight(q) && q.live && q.posted != []
    ensures OneInFlight(Enqueue(q))
  {
    hide BytesOf;
    var waiting := q.waiting + [q.posted[0]];
    assert waiting[..|waiting|] == waiting;
    if q.waiting != [] {
      var f := q.flights[0];
      assert f in q.flights && waiting[..f.count] == q.waiting[..f.count];
    }
  }

  lemma EnqueueOrderly(q: Queue)
    requires Orderly(q) && q.posted != []
    ensures Orderly(Enqueue(q))
  {
    hide Intact, OneInFlight;
    EnqueueIntact(q);
    EnqueueOneInFlight(q);
  }

  /** Of an orderly queue the only write is the first, and it ends undisturbed. */
  lemma CompletedIs(q: Queue, i: nat)
    requires Orderly(q) && i < |q.flights|
    ensures var f := q.flights[0];
            var freed := q.(wire := q.wire + f.bytes, flights := [], released := q.released + q.waiting[..f.count],
                            waiting := q.waiting[f.count..]);
            && f in q.flights && 0 < f.count <= |q.waiting| && f.bytes == BytesOf(q.waiting[..f.count])
            && Completed(q, i, Success) == if freed.waiting == [] then freed else StartWrite(freed)
  {
    hide BytesOf;
    var f := q.flights[0];
    assert f in q.flights && i == 0;
    assert f.bytes[..|f.bytes|] == f.bytes && q.flights[..0] + q.flights[1..] == [];
  }

  lemma CompletedOrderly(q: Queue, i: nat)
    requires Orderly(q) && i < |q.flights|
    ensures Orderly(Completed(q, i, Success))
  {
    hide BytesOf, Completed;
    CompletedIs(q, i);
    var f := q.flights[0];
    var rest := q.waiting[f.count..];
    BytesOfSplit(q.waiting, f.count);
    assert rest[..|rest|] == rest;
    assert q.wire + BytesOf(q.waiting) + BytesOf(q.posted) == (q.wire + f.bytes) + BytesOf(rest) + BytesOf(q.posted);
  }

  lemma OrderlyStep(q: Queue, s: Step)
    requires Orderly(q) && Undisturbed(s)
    ensures Orderly(Apply(q, s)) && Apply(q, s).socket == q.socket
    ensures q.due == q.accepted ==> Apply(q, s).due == Apply(q, s).accepted
  {
    assert q.live;
    hide Orderly, BytesOf;
    match s
    case Write(b) => AcceptOrderly(q, b);
    case RunPosted => if q.posted != [] { EnqueueOrderly(q); }
    case Complete(i, _) => if i < |q.flights| { CompletedOrderly(q, i); }
  }

  lemma OrderlyWire(q: Queue)
    requires Orderly(q) && q.due == q.accepted
    ensures q.wire <= BytesOf(q.accepted)
    ensures q.posted == [] && q.flights == [] ==> q.wire == BytesOf(q.accepted)
  {
    var rest := BytesOf(q.waiting) + BytesOf(q.posted);
    assert q.wire + rest == BytesOf(q.accepted);
  }

  /** In every undisturbed run on a live socket the bytes written are a prefix of the
      bytes submitted, and nothing stalls: what is not yet written is posted or has a
      write in flight. */
  lemma {:induction false} LiveRunDelivers(steps: seq<Step>)
    requires forall s :: s in steps ==> Undisturbed(s)
    ensures var q := Run(Initial(true), steps);
            && Orderly(q) && q.due == q.accepted
            && q.wire <= BytesOf(q.accepted)
            && (q.posted == [] && q.flights == [] ==> q.wire == BytesOf(q.accepted))
    decreases |steps|
  {
    if steps == [] {
      StartsOrderly();
    } else {
      hide Orderly, Apply, BytesOf;
      var n := |steps| - 1;
      assert forall s :: s in steps[..n] ==> s in steps;
      LiveRunDelivers(steps[..n]);
      assert steps[n] in steps;
      OrderlyStep(Run(Initial(true), steps[..n]), steps[n]);
    }
    OrderlyWire(Run(Initial(true), steps));
  }

  lemma StartsOrderly()
    ensures Orderly(Initial(true))
  {
  }

  // ----- single steps, in every state -----

  /** The step starts a write. */
  predicate StartsWrite(q: Queue, s: Step) {
    match s
    case RunPosted => q.live && q.posted != [] && q.waiting == []
    case Complete(i, outcome) =>
      && i < |q.flights| && |q.waiting| > q.flights[i].count
      && ((outcome.Success? && q.live) || (outcome.Error? && outcome.liveAfter))
    case _ => false
  }

  /** A write is started exactly when the first buffer joins an empty deque, or when one has
      completed, not by an abort, and buffers are left; in either case on a live socket, and
      of all buffers that wait then. */
  lemma WriteStartsExactly(q: Queue, s: Step)
    ensures var next := Apply(q, s);
            var rest := if s.Complete? && s.flight < |q.flights| then q.flights[..s.flight] + q.flights[s.flight + 1..]
                        else q.flights;
            next.flights == rest + (if StartsWrite(q, s) then [Flight(|next.waiting|, BytesOf(next.waiting), q.socket)]
                                    else [])
  {
    hide BytesOf;
    if s.RunPosted? && q.posted != [] {
      assert |q.waiting + [q.posted[0]]| > 0;
    }
  }

  /** A buffer written without a live socket is released at once; with one it is posted. */
  lemma WriteStep(q: Queue, b: Buffer)
    ensures var next := Apply(q, Write(b));
            && next.released == q.released + (if q.live then [] else [b])
            && next.posted == q.posted + (if q.live then [b] else [])
            && next.accepted == q.accepted + [b] && next.waiting == q.waiting
  {
  }

  /** What is released when: nothing but by a completion, which takes as many buffers from the
      front as its write was started with, or all if fewer wait, and by a reset, which takes
      all. */
  lemma ReleasedWhen(q: Queue, s: Step)
    requires !s.Write?
    ensures var next := Apply(q, s);
            var n := if s.Reset? then |q.waiting|
                     else if s.Complete? && s.flight < |q.flights| then Min(q.flights[s.flight].count, |q.waiting|)
                     else 0;
            && n <= |q.waiting| && next.released == q.released + q.waiting[..n]
            && next.waiting + next.posted == q.waiting[n..] + q.posted
            && next.accepted == q.accepted
  {
    hide BytesOf;
    assert q.waiting[..0] == [] && q.waiting[0..] == q.waiting;
    if s.RunPosted? && q.posted != [] {
      assert (q.waiting + [q.posted[0]]) + q.posted[1..] == q.waiting + q.posted;
    }
  }

  /** On one socket buffers are released in the order in which they were accepted. */
  lemma {:induction false} ReleasedInOrder(steps: seq<Step>)
    requires forall s :: s in steps ==> Undisturbed(s)
    ensures var q := Run(Initial(true), steps);
            q.live && q.released + q.waiting + q.posted == q.accepted
    decreases |steps|
  {
    hide Apply;
    if steps != [] {
      var n := |steps| - 1;
      var q := Run(Initial(true), steps[..n]);
      assert forall s :: s in steps[..n] ==> s in steps;
      ReleasedInOrder(steps[..n]);
      LiveRunDelivers(steps[..n]);
      assert steps[n] in steps;
      ReleasedInOrderStep(q, steps[n]);
    }
  }

  lemma ReleasedInOrderStep(q: Queue, s: Step)
    requires q.live && q.released + q.waiting + q.posted == q.accepted && Undisturbed(s)
    ensures var next := Apply(q, s);
            next.live && next.released + next.waiting + next.posted == next.accepted
  {
    hide Apply, BytesOf;
    LiveExactly(q, s);
    var next := Apply(q, s);
    if s.Write? {
      WriteStep(q, s.buffer);
      assert q.released + q.waiting + (q.posted + [s.buffer]) == (q.released + q.waiting + q.posted) + [s.buffer];
    } else {
      ReleasedWhen(q, s);
      var n := if s.Complete? && s.flight < |q.flights| then Min(q.flights[s.flight].count, |q.waiting|) else 0;
      Shifted(q.released, q.waiting, q.posted, n, next.waiting, next.posted);
    }
  }

  lemma Shifted(released: seq<Buffer>, waiting: seq<Buffer>, posted: seq<Buffer>, n: nat,
                nextWaiting: seq<Buffer>, nextPosted: seq<Buffer>)
    requires n <= |waiting| && nextWaiting + nextPosted == waiting[n..] + posted
    ensures (released + waiting[..n]) + nextWaiting + nextPosted == released + waiting + posted
  {
    assert waiting == waiting[..n] + waiting[n..];
    assert (released + waiting[..n]) + nextWaiting + nextPosted == released + waiting[..n] + (nextWaiting + nextPosted);
  }

  /** A socket is lost by an error whose handler drops it, by losing it, or by a reset to
      nothing, and only a reset brings one. */
  lemma LiveExactly(q: Queue, s: Step)
    ensures Apply(q, s).live
         == match s
            case Reset(live) => live
            case LoseSocket => false
            case Complete(i, outcome) =>
              if i < |q.flights| && outcome.Error? then outcome.liveAfter else q.live
            case _ => q.live
    ensures Apply(q, s).socket == q.socket + (if s.Reset? then 1 else 0)
  {
    hide BytesOf;
  }

  // ----- after a reset: the old write's completion -----

  /** A write of an earlier socket is still outstanding.  However it completes, it releases
      as many waiting buffers as it had been started with, so the new socket's stream stays
      whole exactly when nothing waits at that moment. */
  lemma StaleCompletion(q: Queue, i: nat, outcome: Outcome)
    requires i < |q.flights| && q.flights[i].socket != q.socket && q.flights[i].count > 0
    requires Intact(q) && forall b :: b in q.waiting ==> b.bytes != []
    ensures Intact(Completed(q, i, outcome)) <==> q.waiting == []
  {
    var k := Min(q.flights[i].count, |q.waiting|);
    var kept := q.waiting[k..];
    BytesOfSplit(q.waiting, k);
    LostBytes(q.waiting, k);
    hide BytesOf;
    var lost := BytesOf(q.waiting[..k]);
    assert BytesOf(q.waiting) + BytesOf(q.posted) == lost + (BytesOf(kept) + BytesOf(q.posted));
    var after := q.wire + BytesOf(kept) + BytesOf(q.posted);
    assert |after| + |lost| == |BytesOf(q.due)|;
    if q.waiting == [] {
      assert kept == [];
    }
  }

  lemma LostBytes(waiting: seq<Buffer>, k: nat)
    requires k <= |waiting| && (k == 0 ==> waiting == []) && forall b :: b in waiting ==> b.bytes != []
    ensures BytesOf(waiting[..k]) == [] <==> waiting == []
  {
    if waiting != [] {
      BytesOfSplit(waiting[..k], 1);
      assert waiting[..k][..1] == [waiting[0]];
      BytesOfOne(waiting[0]);
    }
  }

  /** What may happen on a new socket that works: buffers are written, the writes started on
      it succeed, and the cancelled writes of earlier sockets are aborted. */
  predicate Possible(q: Queue, s: Step) {
    match s
    case Write(b) => b.bytes != []
    case RunPosted => true
    case Complete(i, outcome) =>
      i < |q.flights| && (if q.flights[i].socket == q.socket then outcome.Success? else outcome.Aborted?)
    case _ => false
  }

  predicate Future(q: Queue, steps: seq<Step>)
    decreases |steps|
  {
    steps == [] ||
    var n := |steps| - 1;
    Future(q, steps[..n]) && Possible(Run(q, steps[..n]), steps[n])
  }

  lemma OneMore(q: Queue, steps: seq<Step>, s: Step)
    ensures Run(q, steps + [s]) == Apply(Run(q, steps), s)
    ensures Future(q, steps + [s]) <==> Future(q, steps) && Possible(Run(q, steps), s)
  {
    assert (steps + [s])[..|steps|] == steps;
  }

  /** Nothing the new socket should carry is ever lost or sent twice. */
  ghost predicate StaysWhole(q: Queue) {
    forall steps :: Future(q, steps) ==> Intact(Run(q, steps))
  }

  /** What holds in every run whose buffers are not empty. */
  ghost predicate Sound(q: Queue) {
    && (forall f :: f in q.flights ==> f.count > 0 && f.socket <= q.socket)
    && (forall b :: b in q.posted ==> b.bytes != [])
  }

  lemma FlightsSound(q: Queue, s: Step)
    requires Sound(q)
    ensures forall f :: f in Apply(q, s).flights ==> f.count > 0 && f.socket <= q.socket
  {
    WriteStartsExactly(q, s);
    var next := Apply(q, s);
    assert StartsWrite(q, s) ==> |next.waiting| > 0 by {
      hide BytesOf;
    }
    hide Apply, BytesOf, StartsWrite;
    if s.Complete? && s.flight < |q.flights| {
      assert forall f :: f in q.flights[..s.flight] + q.flights[s.flight + 1..] ==> f in q.flights;
    }
  }

  lemma StepSound(q: Queue, s: Step)
    requires Sound(q) && (s.Write? ==> s.buffer.bytes != [])
    ensures Sound(Apply(q, s))
  {
    FlightsSound(q, s);
    LiveExactly(q, s);
    hide BytesOf, StartWrite;
    assert forall b :: b in Apply(q, s).posted ==> b in q.posted || s == Write(b);
  }

  lemma {:induction false} EveryRunSound(live: bool, steps: seq<Step>)
    requires forall s :: s in steps && s.Write? ==> s.buffer.bytes != []
    ensures Sound(Run(Initial(live), steps))
    decreases |steps|
  {
    if steps != [] {
      hide Apply, Sound;
      var n := |steps| - 1;
      EveryRunSound(live, steps[..n]);
      assert steps[n] in steps;
      StepSound(Run(Initial(live), steps[..n]), steps[n]);
    } else {
      NothingYet(live);
    }
  }

  lemma NothingYet(live: bool)
    ensures Sound(Initial(live))
  {
  }

  /** A reset with nothing outstanding starts an orderly stream. */
  lemma {:induction false} IdleReset(q: Queue, steps: seq<Step>)
    requires Orderly(q) && Future(q, steps)
    ensures Orderly(Run(q, steps))
    decreases |steps|
  {
    if steps != [] {
      hide Orderly, Apply;
      var n := |steps| - 1;
      var before := Run(q, steps[..n]);
      IdleReset(q, steps[..n]);
      OnlyCurrentFlights(before, steps[n]);
      OrderlyStep(before, steps[n]);
    }
  }

  lemma OnlyCurrentFlights(q: Queue, s: Step)
    requires Orderly(q) && Possible(q, s)
    ensures Undisturbed(s)
  {
    hide BytesOf, Intact;
    if s.Complete? {
      assert q.flights[s.flight] in q.flights;
    }
  }

  lemma FreshSocketOrderly(q: Queue)
    requires q.flights == []
    ensures Orderly(ResetSocket(q, true))
  {
    assert BytesOf([]) == [];
    assert q.waiting[|q.waiting|..] == [];
  }

  lemma ResetSocketIs(q: Queue)
    ensures var m := ResetSocket(q, true);
            && m.flights == q.flights && m.socket == q.socket + 1 && m.live && m.waiting == [] && m.posted == q.posted
            && Intact(m)
  {
    assert BytesOf([]) == [];
  }

  /** A write left outstanding by a reset makes some run lose a buffer. */
  lemma OldWriteLosesBuffer(q: Queue) returns (steps: seq<Step>)
    requires Sound(q) && q.flights != []
    ensures Future(ResetSocket(q, true), steps) && !Intact(Run(ResetSocket(q, true), steps))
  {
    var m := ResetSocket(q, true);
    ResetSocketIs(q);
    hide BytesOf, Intact, ResetSocket;
    steps := [];
    assert Run(m, []) == m && Future(m, []);
    if q.posted == [] {
      var write := Write(Buffer(0, [0]));
      OneMore(m, [], write);
      steps := [] + [write];
      AcceptIntact(m, write.buffer);
    }
    var ready := Run(m, steps);
    assert ready.posted != [] && ready.waiting == [] && ready.flights == q.flights && Intact(ready);
    OneMore(m, steps, RunPosted);
    EnqueueIntact(ready);
    steps := steps + [RunPosted];
    var begun := Run(m, steps);
    assert begun.flights[0] == q.flights[0] && q.flights[0] in q.flights;
    assert ready.posted[0] in ready.posted && begun.waiting == [ready.posted[0]];
    StaleCompletion(begun, 0, Aborted(0));
    OneMore(m, steps, Complete(0, Aborted(0)));
    steps := steps + [Complete(0, Aborted(0))];
  }

  /** In every run whose buffers are not empty, a reset is followed by whole streams only, if
      and only if no write was outstanding. */
  lemma ResetStaysWholeExactlyWhenIdle(live: bool, history: seq<Step>)
    requires forall s :: s in history && s.Write? ==> s.buffer.bytes != []
    ensures var q := Run(Initial(live), history);
            StaysWhole(ResetSocket(q, true)) <==> q.flights == []
  {
    hide Sound, Future, Run, ResetSocket, Orderly, Intact;
    var q := Run(Initial(live), history);
    var m := ResetSocket(q, true);
    EveryRunSound(live, history);
    if q.flights == [] {
      FreshSocketOrderly(q);
      forall steps | Future(m, steps) ensures Intact(Run(m, steps)) {
        IdleReset(m, steps);
        OrderlyIsIntact(Run(m, steps));
      }
    } else {
      var steps := OldWriteLosesBuffer(q);
    }
  }

  lemma OrderlyIsIntact(q: Queue)
    requires Orderly(q)
    ensures Intact(q)
  {
  }

  /** Such a moment can come: a buffer handed over before a reset is written to the new
      socket, and released unsent when the old write's abort arrives. */
  lemma StaleCompletionLosesBuffer(first: Buffer, second: Buffer)
    ensures var steps := [Write(first), RunPosted, Write(second), Reset(true), RunPosted, Complete(0, Aborted(0))];
            var q := Run(Initial(true), steps);
            q.live && q.waiting == [] && q.posted == [] && q.wire == [] && q.due == [second] && second in q.released
  {
    var steps := [Write(first), RunPosted, Write(second), Reset(true), RunPosted, Complete(0, Aborted(0))];
    var q1 := Apply(Initial(true), Write(first));
    var q2 := Apply(q1, RunPosted);
    var q3 := Apply(q2, Write(second));
    var q4 := Apply(q3, Reset(true));
    var q5 := Apply(q4, RunPosted);
    assert q2.flights == [Flight(1, BytesOf([first]), 0)] && q2.waiting == [first];
    assert q4.posted == [second] && q4.waiting == [];
    assert q5.waiting == [second] && q5.flights[0] == Flight(1, BytesOf([first]), 0);
    var q6 := Apply(q5, Complete(0, Aborted(0)));
    assert q6.waiting == [] && q6.released == [first] + [second];
    RunOf6(Initial(true), steps);
  }

  lemma RunOf6(q: Queue, s: seq<Step>)
    requires |s| == 6
    ensures Run(q, s) == Apply(Apply(Apply(Apply(Apply(Apply(q, s[0]), s[1]), s[2]), s[3]), s[4]), s[5])
  {
    assert s[..5][..4] == s[..4] && s[..4][..3] == s[..3] && s[..3][..2] == s[..2] && s[..2][..1] == s[..1];
    assert Run(q, s[..1]) == Apply(Run(q, s[..1][..0]), s[0]);
    assert Run(q, s[..2]) == Apply(Run(q, s[..1]), s[1]);
    assert Run(q, s[..3]) == Apply(Run(q, s[..2]), s[2]);
    assert Run(q, s[..4]) == Apply(Run(q, s[..3]), s[3]);
    assert Run(q, s[..5]) == Apply(Run(q, s[..4]), s[4]);
  }

  // ----- the program -----

  class SocketWriteHelper {
    var live: bool
    var writeQueue: seq<Buffer>
    var posted: seq<Buffer>
    var released: seq<Buffer>
    ghost var flights: seq<Flight>
    ghost var socket: nat
    ghost var accepted: seq<Buffer>
    ghost var due: seq<Buffer>
    ghost var wire: seq<byte>
    ghost const startedLive: bool
    ghost var history: seq<Step>

    ghost function State(): Queue
      reads this
    {
      Queue(live, socket, posted, writeQueue, flights, released, accepted, due, wire)
    }

    /** The object is in the state its history of steps leads to. */
    ghost predicate Valid()
      reads this
    {
      State() == Run(Initial(startedLive), history)
    }

    constructor (live: bool)
      ensures Valid() && State() == Initial(live) && history == []
    {
      this.live, writeQueue, posted, released := live, [], [], [];
      flights := [];
      socket, accepted, due, wire, history := 0, [], [], [], [];
      startedLive := live;
    }

    ghost method Record(s: Step, before: Queue)
      requires State() == Apply(before, s)
      requires before == Run(Initial(startedLive), history)
      modifies `history
      ensures Valid() && history == old(history) + [s]
    {
      history := history + [s];
      assert history[..|history| - 1] == old(history);
    }

    method StartAsyncWrite()
      requires writeQueue != []
      modifies `flights
      ensures State() == StartWrite(old(State()))
    {
      if !live {
        return;
      }
      var count := |writeQueue|;
      if count > 1 {
        // the vector starts with `count` empty buffers, and the real ones follow
        var buffers: seq<seq<byte>> := seq(count, _ => []);
        FlattenEmpties(buffers);
        for i := 0 to count
          invariant Flatten(buffers) == BytesOf(writeQueue[..i]) && flights == old(flights)
        {
          FlattenLast(buffers, writeQueue[i].bytes);
          assert writeQueue[..i + 1] == writeQueue[..i] + [writeQueue[i]];
          BytesOfAppend(writeQueue[..i], [writeQueue[i]]);
          BytesOfOne(writeQueue[i]);
          buffers := buffers + [writeQueue[i].bytes];
        }
        assert writeQueue[..count] == writeQueue;
        flights := flights + [Flight(count, Flatten(buffers), socket)];
      } else {
        assert writeQueue == [writeQueue[0]];
        BytesOfOne(writeQueue[0]);
        flights := flights + [Flight(1, writeQueue[0].bytes, socket)];
      }
    }

    method DeleteFirstNBuffers(n: nat)
      modifies `writeQueue, `released
      ensures State() == Release(old(State()), n)
    {
      var k := Min(n, |writeQueue|);
      for i := 0 to k
        invariant writeQueue == old(writeQueue)[i..]
        invariant released == old(released) + old(writeQueue)[..i]
      {
        released := released + [writeQueue[0]];  // use the deleter
        writeQueue := writeQueue[1..];
      }
    }

    method Write(b: Buffer)
      requires Valid()
      modifies this
      ensures Valid() && history == old(history) + [Step.Write(b)] && State() == Accept(old(State()), b)
    {
      ghost var before := State();
      if !live {
        released := released + [b];
      } else {
        posted := posted + [b];
        due := due + [b];
      }
      accepted := accepted + [b];
      Record(Step.Write(b), before);
    }

    /** The closure that write posted to the executor. */
    method RunPosted()
      requires Valid() && posted != []
      modifies this
      ensures Valid() && history == old(history) + [Step.RunPosted] && State() == Enqueue(old(State()))
    {
      ghost var before := State();
      var writeInProcess := writeQueue != [];
      writeQueue, posted := writeQueue + [posted[0]], posted[1..];
      if !writeInProcess {
        StartAsyncWrite();
      }
      Record(Step.RunPosted, before);
    }

    /** The completion handler of flight i, bound to the number of buffers it was
        started with. */
    method OnWritten(ghost i: nat, bufferCount: nat, outcome: Outcome)
      requires Valid() && i < |flights| && bufferCount == flights[i].count
      modifies this
      ensures Valid() && history == old(history) + [Complete(i, outcome)]
      ensures State() == Completed(old(State()), i, outcome)
    {
      hide Run, BytesOf, Release, StartWrite;
      ghost var before := State();
      ghost var f := flights[i];
      flights := flights[..i] + flights[i + 1..];
      wire := OnWire(before, f, if outcome.Success? then |f.bytes| else outcome.written).wire;
      ghost var landed := State();
      DeleteFirstNBuffers(bufferCount);
      ghost var freed := State();
      assert freed == Release(OnWire(before, f, if outcome.Success? then |f.bytes| else outcome.written)
        .(flights := before.flights[..i] + before.flights[i + 1..]), f.count);
      if !outcome.Aborted? {
        if outcome.Error? {
          live := outcome.liveAfter;  // _close_handler()
        }
        if writeQueue != [] {
          StartAsyncWrite();
        }
      }
      Record(Complete(i, outcome), before);
    }

    method Reset(live: bool)
      requires Valid()
      modifies this
      ensures Valid() && history == old(history) + [Step.Reset(live)] && State() == ResetSocket(old(State()), live)
    {
      ghost var before := State();
      this.live := live;
      socket, due, wire := socket + 1, posted, [];
      DeleteFirstNBuffers(|writeQueue|);
      Record(Step.Reset(live), before);
    }
  }

  lemma {:induction false} FlattenEmpties(parts: seq<seq<byte>>)
    requires forall i :: 0 <= i < |parts| ==> parts[i] == []
    ensures Flatten(parts) == []
  {
    if parts != [] {
      FlattenEmpties(parts[1..]);
    }
  }
}
