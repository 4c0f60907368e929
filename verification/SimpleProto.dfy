/** The control-protocol reassembler (src/shared/simple_worker_proto.cpp) and the read
    handler that feeds it its own carried state.

    When a frame is too long for the buffer the source skips the payload length minus the
    bytes at hand, although those bytes include the 4-byte header.  The model keeps that,
    and says exactly when the reassembler is the whole-stream decoder nevertheless. */
module SimpleProto {
  import opened Bytes
  import opened Framing

  /** Conversion of a signed difference to size_t. */
  function ToSize(x: int): (r: nat)
    ensures 0 <= x < SIZE_MODULUS ==> r == x
    ensures -SIZE_MODULUS <= x < 0 ==> r == x + SIZE_MODULUS
  {
    if 0 <= x < SIZE_MODULUS then x
    else if -SIZE_MODULUS <= x < 0 then x + SIZE_MODULUS
    else x % SIZE_MODULUS
  }

  /** One call on a window of bytes, as the source computes it. */
  function Parse(limit: nat, w: seq<byte>): Decoded
    decreases |w|
  {
    if |w| < SIMPLE_HEADER then Decoded([], Partial(w))
    else
      var length := BigEndian32(w[..4]);
      var total := length + SIMPLE_HEADER;
      if total > limit then Decoded([], Carried([], 0, ToSize(length - |w|)))
      else if total > |w| then Decoded([], Partial(w))
      else Cons(w[..total], Parse(limit, w[total..]))
  }

  function Read(limit: nat, tail: Tail, chunk: seq<byte>): Decoded {
    match tail
    case Partial(bytes) => Parse(limit, bytes + chunk)
    case Skipping(left) =>
      if left > |chunk| then Decoded([], Skipping(left - |chunk|)) else Parse(limit, chunk[left..])
    case _ => Decoded([], tail)
  }

  /** A run of reads. */
  function ReadAll(limit: nat, tail: Tail, chunks: seq<seq<byte>>): Decoded
    decreases |chunks|
  {
    if chunks == [] then Decoded([], tail)
    else
      var n := |chunks| - 1;
      var before := ReadAll(limit, tail, chunks[..n]);
      Then(before, Read(limit, before.tail, chunks[n]))
  }

  /** Every read fits the window the handler offers it: the buffer behind the carried
      bytes. */
  predicate Windowed(limit: nat, tail: Tail, chunks: seq<seq<byte>>)
    decreases |chunks|
  {
    chunks == [] ||
    var n := |chunks| - 1;
    && Windowed(limit, tail, chunks[..n])
    && |chunks[n]| <= Window(limit, ReadAll(limit, tail, chunks[..n]).tail)
  }

  function Window(limit: nat, tail: Tail): int {
    if tail.Partial? then limit - |tail.bytes| else limit
  }

  lemma OneMoreRead(limit: nat, tail: Tail, chunks: seq<seq<byte>>, c: seq<byte>)
    ensures var before := ReadAll(limit, tail, chunks);
            && ReadAll(limit, tail, chunks + [c]) == Then(before, Read(limit, before.tail, c))
            && (Windowed(limit, tail, chunks + [c])
                <==> Windowed(limit, tail, chunks) && |c| <= Window(limit, before.tail))
  {
    assert (chunks + [c])[..|chunks|] == chunks;
  }

  /** Some frame of the stream is too long for the buffer. */
  predicate MeetsOversize(limit: nat, s: seq<byte>)
    decreases |s|
  {
    |s| >= SIMPLE_HEADER &&
    var total := BigEndian32(s[..4]) + SIMPLE_HEADER;
    (total > limit || (total <= |s| && MeetsOversize(limit, s[total..])))
  }

  /** One window: the call is the reference decoder exactly when no frame is too long. */
  lemma {:induction false} ParseAgrees(limit: nat, w: seq<byte>)
    requires |w| <= limit
    ensures Parse(limit, w).frames == Decode(Simple, limit, w).frames
    ensures Parse(limit, w).tail == Decode(Simple, limit, w).tail <==> !MeetsOversize(limit, w)
    decreases |w|
  {
    hide BigEndian32;
    if |w| >= SIMPLE_HEADER {
      var total := BigEndian32(w[..4]) + SIMPLE_HEADER;
      if total <= |w| {
        ParseAgrees(limit, w[total..]);
      }
    }
  }

  /** What follows a stream without oversize frames meets one exactly when the residual
      does. */
  lemma {:induction false} OversizeSplit(limit: nat, s: seq<byte>, t: seq<byte>)
    requires !MeetsOversize(limit, s)
    ensures var tail := Decode(Simple, limit, s).tail;
            tail.Partial? && (MeetsOversize(limit, s + t) <==> MeetsOversize(limit, tail.bytes + t))
    decreases |s|
  {
    hide BigEndian32;
    if |s| >= SIMPLE_HEADER {
      HeadOfPrefix(Simple, s, t);
      assert (s + t)[..4] == s[..4];
      var total := BigEndian32(s[..4]) + SIMPLE_HEADER;
      if total <= |s| {
        assert (s + t)[total..] == s[total..] + t;
        OversizeSplit(limit, s[total..], t);
      }
    }
  }

  lemma {:induction false} OversizeExtends(limit: nat, s: seq<byte>, t: seq<byte>)
    requires MeetsOversize(limit, s)
    ensures MeetsOversize(limit, s + t)
    decreases |s|
  {
    hide BigEndian32;
    assert (s + t)[..4] == s[..4];
    var total := BigEndian32(s[..4]) + SIMPLE_HEADER;
    if total <= limit {
      assert (s + t)[total..] == s[total..] + t;
      OversizeExtends(limit, s[total..], t);
    }
  }

  /** Whatever the chunking, a stream whose frames all fit the buffer gives exactly the
      frames and the residual of the whole-stream decoder. */
  lemma {:induction false} FittingStreamExact(limit: nat, chunks: seq<seq<byte>>)
    requires Windowed(limit, Partial([]), chunks)
    requires !MeetsOversize(limit, Flatten(chunks))
    ensures ReadAll(limit, Partial([]), chunks) == Decode(Simple, limit, Flatten(chunks))
    decreases |chunks|
  {
    if chunks == [] {
      assert Decode(Simple, limit, []) == Decoded([], Partial([]));
    } else {
      var n := |chunks| - 1;
      var init, c := chunks[..n], chunks[n];
      var s := Flatten(init);
      assert chunks == init + [c];
      FlattenLast(init, c);
      if MeetsOversize(limit, s) {
        OversizeExtends(limit, s, c);
      }
      FittingStreamExact(limit, init);
      OversizeSplit(limit, s, c);
      ParseAgrees(limit, Decode(Simple, limit, s).tail.bytes + c);
      ChunkLaw(Simple, limit, s, c);
    }
  }

  /** At the read that completes the first oversize header the carried state goes wrong. */
  lemma {:induction false} OversizeDiverges(limit: nat, chunks: seq<seq<byte>>) returns (k: nat)
    requires Windowed(limit, Partial([]), chunks)
    requires MeetsOversize(limit, Flatten(chunks))
    ensures k <= |chunks|
    ensures ReadAll(limit, Partial([]), chunks[..k]).tail != Decode(Simple, limit, Flatten(chunks[..k])).tail
    decreases |chunks|
  {
    if chunks == [] {
      assert false;
    } else {
      var n := |chunks| - 1;
      var init, c := chunks[..n], chunks[n];
      var s := Flatten(init);
      assert chunks == init + [c] == chunks[..n + 1];
      FlattenLast(init, c);
      if MeetsOversize(limit, s) {
        k := OversizeDiverges(limit, init);
        assert init[..k] == chunks[..k];
      } else {
        FittingStreamExact(limit, init);
        OversizeSplit(limit, s, c);
        ParseAgrees(limit, Decode(Simple, limit, s).tail.bytes + c);
        ChunkLaw(Simple, limit, s, c);
        k := |chunks|;
      }
    }
  }

  /** After every read the handler is where the whole-stream decoder would be. */
  ghost predicate TracksStream(limit: nat, chunks: seq<seq<byte>>) {
    forall k :: 0 <= k <= |chunks| ==>
      ReadAll(limit, Partial([]), chunks[..k]) == Decode(Simple, limit, Flatten(chunks[..k]))
  }

  lemma WindowedPrefix(limit: nat, tail: Tail, chunks: seq<seq<byte>>, k: nat)
    requires Windowed(limit, tail, chunks) && k <= |chunks|
    ensures Windowed(limit, tail, chunks[..k])
    decreases |chunks|
  {
    if k == |chunks| {
      assert chunks[..k] == chunks;
    } else {
      var n := |chunks| - 1;
      assert chunks[..n][..k] == chunks[..k];
      WindowedPrefix(limit, tail, chunks[..n], k);
    }
  }

  /** The reassembler meets its specification exactly on streams without a frame too long
      for its buffer. */
  lemma TracksExactlyFittingStreams(limit: nat, chunks: seq<seq<byte>>)
    requires Windowed(limit, Partial([]), chunks)
    ensures TracksStream(limit, chunks) <==> !MeetsOversize(limit, Flatten(chunks))
  {
    hide ReadAll, Windowed, Decode, MeetsOversize, Flatten;
    if MeetsOversize(limit, Flatten(chunks)) {
      var k := OversizeDiverges(limit, chunks);
    } else {
      forall k | 0 <= k <= |chunks|
        ensures ReadAll(limit, Partial([]), chunks[..k]) == Decode(Simple, limit, Flatten(chunks[..k]))
      {
        WindowedPrefix(limit, Partial([]), chunks, k);
        assert chunks == chunks[..k] + chunks[k..];
        FlattenAppend(chunks[..k], chunks[k..]);
        if MeetsOversize(limit, Flatten(chunks[..k])) {
          OversizeExtends(limit, Flatten(chunks[..k]), Flatten(chunks[k..]));
        }
        FittingStreamExact(limit, chunks[..k]);
      }
    }
  }

  /** A stream that shows it: behind a frame one byte too long, the next frame is lost. */
  const LONG_FRAME_CUT: seq<byte> := [0, 0, 0, 5, 9, 9, 9, 9]
  const REST_AND_NEXT: seq<byte> := [9, 0, 0, 0, 1, 7]
  const NEXT_FRAME: seq<byte> := [0, 0, 0, 1, 7]

  lemma OversizeLosesNextFrame()
    ensures Windowed(8, Partial([]), [LONG_FRAME_CUT, REST_AND_NEXT])
    ensures Decode(Simple, 8, LONG_FRAME_CUT + REST_AND_NEXT).frames == [NEXT_FRAME]
    ensures ReadAll(8, Partial([]), [LONG_FRAME_CUT, REST_AND_NEXT]).frames == []
  {
    hide Decode, Parse;
    LongFrameSkip();
    NextFrameIsDue();
    OneMoreRead(8, Partial([]), [], LONG_FRAME_CUT);
    OneMoreRead(8, Partial([]), [LONG_FRAME_CUT], REST_AND_NEXT);
    assert [] + [LONG_FRAME_CUT] == [LONG_FRAME_CUT];
    assert [LONG_FRAME_CUT] + [REST_AND_NEXT] == [LONG_FRAME_CUT, REST_AND_NEXT];
  }

  lemma LongFrameSkip()
    ensures Read(8, Partial([]), LONG_FRAME_CUT) == Decoded([], Skipping(SIZE_MODULUS - 3))
    ensures Read(8, Skipping(SIZE_MODULUS - 3), REST_AND_NEXT).frames == []
  {
    assert [] + LONG_FRAME_CUT == LONG_FRAME_CUT;
    assert LONG_FRAME_CUT[..4] == [0, 0, 0, 5];
  }

  lemma NextFrameIsDue()
    ensures Decode(Simple, 8, LONG_FRAME_CUT + REST_AND_NEXT).frames == [NEXT_FRAME]
  {
    var long := LONG_FRAME_CUT + [9];
    assert LONG_FRAME_CUT + REST_AND_NEXT == long + NEXT_FRAME && NEXT_FRAME + [] == NEXT_FRAME;
    assert long[..4] == [0, 0, 0, 5] && NEXT_FRAME[..4] == [0, 0, 0, 1];
    DecodeWhole(Simple, 8, long, NEXT_FRAME);
    DecodeWhole(Simple, 8, NEXT_FRAME, []);
  }

  // ----- the program -----

  /** What a call returns when `frames` were handed on and w is still to be parsed. */
  function After(limit: nat, frames: seq<seq<byte>>, w: seq<byte>): Decoded {
    Then(Decoded(frames, Partial([])), Parse(limit, w))
  }

  lemma AfterOneMore(limit: nat, frames: seq<seq<byte>>, w: seq<byte>, n: nat)
    requires n <= |w| && Parse(limit, w) == Cons(w[..n], Parse(limit, w[n..]))
    ensures After(limit, frames, w) == After(limit, frames + [w[..n]], w[n..])
  {
    hide Parse;
    var rest := Parse(limit, w[n..]);
    assert frames + ([w[..n]] + rest.frames) == (frames + [w[..n]]) + rest.frames;
  }

  lemma AfterLast(limit: nat, frames: seq<seq<byte>>, w: seq<byte>)
    ensures Parse(limit, w).frames == [] ==> After(limit, frames, w) == Decoded(frames, Parse(limit, w).tail)
    ensures w == [] ==> Parse(limit, w) == Decoded([], Partial([]))
  {
    assert frames + [] == frames;
  }

  lemma FrameInPlace(bytes: seq<byte>, begin: nat, w: seq<byte>, n: nat)
    requires n <= |w| && begin + |w| <= |bytes| && w == bytes[begin..begin + |w|]
    ensures bytes[begin..begin + n] == w[..n] && bytes[begin + n..begin + |w|] == w[n..]
  {
    SliceOfSlice(bytes, begin, begin + |w|, 0, n);
    SliceOfSlice(bytes, begin, begin + |w|, n, |w|);
  }

  method LengthAt(buf: array<byte>, begin: nat, ghost window: seq<byte>) returns (length: uint32)
    requires SIMPLE_HEADER <= |window| && begin + |window| <= buf.Length && window == buf[begin..begin + |window|]
    ensures length == BigEndian32(window[..4])
  {
    LengthInPlace(buf[..], begin, window);
    length := ByteSwap32(LoadHost32(buf[begin..begin + 4]));
  }

  method FrameAt(buf: array<byte>, begin: nat, ghost window: seq<byte>, n: nat) returns (frame: seq<byte>)
    requires n <= |window| && begin + |window| <= buf.Length && window == buf[begin..begin + |window|]
    ensures frame == window[..n] && buf[begin + n..begin + |window|] == window[n..]
  {
    FrameInPlace(buf[..], begin, window, n);
    frame := buf[begin..begin + n];
  }

  /** One turn of the loop: the length n of the frame that is complete, or zero with what
      the call then returns. */
  method NextFrame(buf: array<byte>, bufferSize: nat, begin: nat, remaining: nat, ghost window: seq<byte>)
    returns (n: nat, offset: nat, skip: nat)
    requires 0 < remaining && begin + remaining <= bufferSize <= buf.Length
    requires window == buf[begin..begin + remaining]
    modifies buf
    ensures n > 0 ==> n <= remaining && buf[..] == old(buf[..])
    ensures n > 0 ==> Parse(bufferSize, window) == Cons(window[..n], Parse(bufferSize, window[n..]))
    ensures offset <= bufferSize && (skip > 0 ==> offset == 0)
    ensures n == 0 ==> Parse(bufferSize, window) == Decoded([], Carried(buf[..], offset, skip))
  {
    hide BigEndian32, ToSize;
    n, offset, skip := 0, 0, 0;
    if remaining < SIMPLE_HEADER {
      offset := remaining;
      KeepRest(buf, begin, remaining, window);
    } else {
      var length := LengthAt(buf, begin, window);
      var lengthWithHeader := length + SIMPLE_HEADER;
      if lengthWithHeader > bufferSize {
        skip := ToSize(length - remaining);
      } else if lengthWithHeader > remaining {
        offset := remaining;
        KeepRest(buf, begin, remaining, window);
      } else {
        n := lengthWithHeader;
      }
    }
  }

  /** The loop over the frames of one read: bytes [first, first + size) are parsed, and
      each frame is handed on. */
  method ParseWindow(buf: array<byte>, transferred: nat, bufferSize: nat, lastRemaining: nat,
                     first: nat, size: nat, ghost all: seq<byte>)
    returns (offset: nat, skip: nat, frames: seq<seq<byte>>)
    requires first + size <= bufferSize <= buf.Length && all == buf[first..first + size]
    requires size <= transferred + lastRemaining
    modifies buf
    ensures offset <= bufferSize && (skip > 0 ==> offset == 0)
    ensures frames == Parse(bufferSize, all).frames
    ensures Carried(buf[..], offset, skip) == Parse(bufferSize, all).tail
  {
    hide Parse, After;
    frames := [];
    var begin, remaining := first, size;
    ghost var window := all;
    assert After(bufferSize, [], all) == Parse(bufferSize, all) by { NothingBefore(bufferSize, all); }
    while remaining > 0
      invariant 0 <= begin && 0 <= remaining && begin + remaining == first + size
      invariant window == buf[begin..begin + remaining]
      invariant Parse(bufferSize, all) == After(bufferSize, frames, window)
      decreases remaining
    {
      assert remaining <= bufferSize && remaining <= transferred + lastRemaining;  // the source's own assertion
      var n;
      n, offset, skip := NextFrame(buf, bufferSize, begin, remaining, window);
      AfterLast(bufferSize, frames, window);
      if n == 0 {
        return offset, skip, frames;
      }
      AfterOneMore(bufferSize, frames, window, n);
      var frame := FrameAt(buf, begin, window, n);
      frames := frames + [frame];
      remaining := remaining - n;
      begin := begin + n;
      window := window[n..];
    }
    AfterLast(bufferSize, frames, window);
    return 0, 0, frames;
  }

  lemma NothingBefore(limit: nat, w: seq<byte>)
    ensures After(limit, [], w) == Parse(limit, w)
  {
    assert [] + Parse(limit, w).frames == Parse(limit, w).frames;
  }

  method HandleSimpleMessage(buf: array<byte>, transferred: nat, bufferSize: nat, lastRemaining: nat, skipping: nat,
                             ghost tail: Tail, ghost chunk: seq<byte>)
    returns (offset: nat, skip: nat, frames: seq<seq<byte>>)
    requires bufferSize <= buf.Length && lastRemaining + transferred <= bufferSize
    requires skipping > 0 ==> lastRemaining == 0
    requires tail == Carried(buf[..], lastRemaining, skipping)
    requires chunk == buf[lastRemaining..lastRemaining + transferred]
    modifies buf
    ensures offset <= bufferSize && (skip > 0 ==> offset == 0)
    ensures frames == Read(bufferSize, tail, chunk).frames
    ensures Carried(buf[..], offset, skip) == Read(bufferSize, tail, chunk).tail
  {
    if skipping > transferred {
      return 0, skipping - transferred, [];
    }
    var remaining := transferred - skipping + lastRemaining;
    ghost var window := buf[skipping..skipping + remaining];
    assert Read(bufferSize, tail, chunk) == Parse(bufferSize, window) by {
      if skipping > 0 {
        assert chunk[skipping..] == window;
      } else {
        assert buf[..][..lastRemaining] + chunk == window;
      }
    }
    offset, skip, frames := ParseWindow(buf, transferred, bufferSize, lastRemaining, skipping, remaining, window);
  }

  /** What a call may leave behind: a skip that is not over, or an incomplete frame that
      can still grow. */
  predicate Settled(limit: nat, tail: Tail) {
    match tail
    case Partial(bytes) => |bytes| < limit && Parse(limit, bytes) == Decoded([], tail)
    case Skipping(left) => left > 0
    case _ => false
  }

  /** The carried bytes never fill the buffer, so the next read is never empty. */
  lemma {:induction false} WindowNeverEmpty(limit: nat, w: seq<byte>)
    requires limit >= SIMPLE_HEADER
    ensures Settled(limit, Parse(limit, w).tail) && Window(limit, Parse(limit, w).tail) > 0
    decreases |w|
  {
    hide BigEndian32;
    if |w| >= SIMPLE_HEADER {
      var total := BigEndian32(w[..4]) + SIMPLE_HEADER;
      if total <= limit && total <= |w| {
        WindowNeverEmpty(limit, w[total..]);
      }
    }
  }

  lemma ReadSettles(limit: nat, tail: Tail, chunk: seq<byte>)
    requires limit >= SIMPLE_HEADER && Settled(limit, tail)
    ensures Settled(limit, Read(limit, tail, chunk).tail) && Window(limit, Read(limit, tail, chunk).tail) > 0
  {
    if tail.Partial? {
      WindowNeverEmpty(limit, tail.bytes + chunk);
    } else if tail.left <= |chunk| {
      WindowNeverEmpty(limit, chunk[tail.left..]);
    }
  }

  // ----- what frames that are too long do to those that follow -----

  /** How many frames of the stream, as the whole-stream decoder sees it, are too long. */
  function Oversize(limit: nat, s: seq<byte>): nat
    decreases |s|
  {
    if |s| < SIMPLE_HEADER then 0
    else
      var total := BigEndian32(s[..4]) + SIMPLE_HEADER;
      (if total > limit then 1 else 0) + (if total <= |s| then Oversize(limit, s[total..]) else 0)
  }

  lemma {:induction false} OversizeCounted(limit: nat, s: seq<byte>)
    ensures MeetsOversize(limit, s) <==> Oversize(limit, s) > 0
    decreases |s|
  {
    hide BigEndian32;
    if |s| >= SIMPLE_HEADER {
      var total := BigEndian32(s[..4]) + SIMPLE_HEADER;
      if total <= limit && total <= |s| {
        OversizeCounted(limit, s[total..]);
      }
    }
  }

  /** While a frame that is too long is being skipped, what is left of it hides nothing. */
  lemma {:induction false} OversizeBehind(limit: nat, s: seq<byte>, t: seq<byte>)
    requires Decode(Simple, limit, s).tail.Skipping?
    ensures var left := Decode(Simple, limit, s).tail.left;
            Oversize(limit, s + t) == Oversize(limit, s) + (if left <= |t| then Oversize(limit, t[left..]) else 0)
    decreases |s|
  {
    hide BigEndian32;
    HeadOfPrefix(Simple, s, t);
    assert (s + t)[..4] == s[..4];
    var total := BigEndian32(s[..4]) + SIMPLE_HEADER;
    if total <= |s| {
      assert (s + t)[total..] == s[total..] + t;
      OversizeBehind(limit, s[total..], t);
    } else if total <= |s| + |t| {
      assert (s + t)[total..] == t[total - |s|..];
    }
  }

  /** However the stream goes on with frames that fit, after any of the reads, all frames
      that fit are handed on. */
  ghost predicate HandsOnRightly(limit: nat, chunks: seq<seq<byte>>) {
    forall k, more :: 0 <= k <= |chunks| && GoesOn(limit, chunks[..k], more) ==>
      ReadAll(limit, Partial([]), chunks[..k] + more).frames
      == Decode(Simple, limit, Flatten(chunks[..k] + more)).frames
  }

  /** A continuation in reads that fit their windows, without a further frame that is too
      long. */
  ghost predicate GoesOn(limit: nat, chunks: seq<seq<byte>>, more: seq<seq<byte>>) {
    && Windowed(limit, Partial([]), chunks + more)
    && Oversize(limit, Flatten(chunks + more)) == Oversize(limit, Flatten(chunks))
  }

  /** What the source skips when `left` bytes of a frame too long for the buffer are still to
      come: four too few, and if there are fewer than four almost 2^64. */
  function SkippedInstead(left: nat): nat
    requires left > 0
  {
    if left >= 4 then left - 4 else SIZE_MODULUS - (4 - left)
  }

  function SkipOf(n: nat): Tail {
    if n > 0 then Skipping(n) else Partial([])
  }

  /** The call that meets a frame too long for the buffer has handed on the frames before it
      and skips the wrong number of bytes. */
  lemma {:induction false} ParseOversize(limit: nat, w: seq<byte>)
    requires |w| <= limit && MeetsOversize(limit, w)
    ensures Parse(limit, w).frames == Decode(Simple, limit, w).frames
    ensures var tail := Decode(Simple, limit, w).tail;
            && tail.Skipping? && 0 < tail.left < 0x1_0000_0004
            && Parse(limit, w).tail == SkipOf(SkippedInstead(tail.left))
    decreases |w|
  {
    var total := BigEndian32(w[..4]) + SIMPLE_HEADER;
    assert total < 0x1_0000_0004;
    hide BigEndian32;
    if total <= |w| {
      ParseOversize(limit, w[total..]);
    }
  }

  /** One zero after another: the state after n of them, when m bytes were to be skipped. */
  function AfterZeros(m: nat, n: nat): Tail
    requires n <= m + 4
  {
    if n < m then Skipping(m - n) else if n == m + 4 then Partial([]) else Partial(Zeros(n - m))
  }

  function ZeroChunks(n: nat): (chunks: seq<seq<byte>>)
    ensures |chunks| == n
  {
    if n == 0 then [] else ZeroChunks(n - 1) + [[0]]
  }

  lemma ParseShort(limit: nat, w: seq<byte>)
    requires |w| < SIMPLE_HEADER
    ensures Parse(limit, w) == Decoded([], Partial(w))
  {
  }

  lemma ParseZeroFrame(limit: nat, z: seq<byte>)
    requires limit >= SIMPLE_HEADER && z == Zeros(4)
    ensures Parse(limit, z) == Decoded([z], Partial([]))
  {
    hide BigEndian32;
    ZeroFrame(z);
    ParseShort(limit, z[4..]);
    assert [z] + [] == [z];
  }

  lemma ZeroAfterZeros(limit: nat, m: nat, n: nat)
    requires limit >= SIMPLE_HEADER && n < m + 4
    ensures Window(limit, AfterZeros(m, n)) >= 1
    ensures Read(limit, AfterZeros(m, n), [0])
         == Decoded(if n + 1 == m + 4 then [Zeros(4)] else [], AfterZeros(m, n + 1))
  {
    hide Parse;
    if n < m {
      assert [0][1..] == [] && Zeros(0) == [];
      ParseShort(limit, []);
    } else {
      assert Zeros(n - m) + [0] == Zeros(n - m + 1);
      if n - m == 3 {
        ParseZeroFrame(limit, Zeros(4));
      } else {
        ParseShort(limit, Zeros(n - m + 1));
      }
    }
  }

  lemma {:induction false} ReadZeros(limit: nat, chunks: seq<seq<byte>>, m: nat, n: nat)
    requires limit >= SIMPLE_HEADER && n <= m + 4 && Windowed(limit, Partial([]), chunks)
    requires ReadAll(limit, Partial([]), chunks).tail == SkipOf(m)
    ensures Windowed(limit, Partial([]), chunks + ZeroChunks(n))
    ensures Flatten(chunks + ZeroChunks(n)) == Flatten(chunks) + Zeros(n)
    ensures var frames := ReadAll(limit, Partial([]), chunks).frames;
            ReadAll(limit, Partial([]), chunks + ZeroChunks(n))
            == Decoded(if n == m + 4 then frames + [Zeros(4)] else frames, AfterZeros(m, n))
    decreases n
  {
    hide Read, ReadAll, Windowed, Flatten;
    if n == 0 {
      assert chunks + [] == chunks && Flatten(chunks) + Zeros(0) == Flatten(chunks) && Zeros(0) == [];
    } else {
      var before := chunks + ZeroChunks(n - 1);
      ReadZeros(limit, chunks, m, n - 1);
      ZeroAfterZeros(limit, m, n - 1);
      OneMoreRead(limit, Partial([]), before, [0]);
      FlattenLast(before, [0]);
      assert before + [[0]] == chunks + ZeroChunks(n);
      assert Flatten(chunks) + Zeros(n - 1) + [0] == Flatten(chunks) + Zeros(n);
      var frames := ReadAll(limit, Partial([]), chunks).frames;
      assert frames + [] == frames;
    }
  }

  /** The whole-stream decoder resumed on zeros behind a frame that is being skipped. */
  lemma ZerosBehind(limit: nat, s: seq<byte>, left: nat, n: nat)
    requires limit >= SIMPLE_HEADER && Decode(Simple, limit, s).tail == Skipping(left) && n in {left, left + 4}
    ensures Oversize(limit, s + Zeros(n)) == Oversize(limit, s)
    ensures Decode(Simple, limit, s + Zeros(n)).frames
         == Decode(Simple, limit, s).frames + (if n == left then [] else [Zeros(4)])
  {
    hide BigEndian32, HeadOf, Decode;
    OversizeBehind(limit, s, Zeros(n));
    ChunkLaw(Simple, limit, s, Zeros(n));
    NoFrame(limit);
    ZeroStream(limit);
    OversizeCounted(limit, Zeros(4));
    assert Zeros(n)[left..] == (if n == left then [] else Zeros(4));
  }

  lemma NoFrame(limit: nat)
    ensures Decode(Simple, limit, []).frames == [] && Oversize(limit, []) == 0
  {
  }

  /** After the read that completes the first header of a frame too long for the buffer,
      zeros are handed on wrongly. */
  lemma ZerosMisread(limit: nat, chunks: seq<seq<byte>>, left: nat) returns (more: seq<seq<byte>>)
    requires limit >= SIMPLE_HEADER && Windowed(limit, Partial([]), chunks) && 0 < left < 0x1_0000_0004
    requires var s := Flatten(chunks);
             && Decode(Simple, limit, s).tail == Skipping(left)
             && ReadAll(limit, Partial([]), chunks)
             == Decoded(Decode(Simple, limit, s).frames, SkipOf(SkippedInstead(left)))
    ensures GoesOn(limit, chunks, more)
    ensures ReadAll(limit, Partial([]), chunks + more).frames
         != Decode(Simple, limit, Flatten(chunks + more)).frames
  {
    hide ReadAll, Windowed, Flatten, Decode, Oversize, AfterZeros, SkipOf;
    var n := if left >= 4 then left else left + 4;
    more := ZeroChunks(n);
    ReadZeros(limit, chunks, SkippedInstead(left), n);
    ZerosBehind(limit, Flatten(chunks), left, n);
    var frames := Decode(Simple, limit, Flatten(chunks)).frames;
    assert |frames + [Zeros(4)]| != |frames| && frames + [] == frames;
  }

  lemma {:induction false} FirstOversize(limit: nat, chunks: seq<seq<byte>>) returns (k: nat, left: nat)
    requires Windowed(limit, Partial([]), chunks) && MeetsOversize(limit, Flatten(chunks))
    ensures k <= |chunks| && Windowed(limit, Partial([]), chunks[..k]) && 0 < left < 0x1_0000_0004
    ensures var s := Flatten(chunks[..k]);
            && Decode(Simple, limit, s).tail == Skipping(left)
            && ReadAll(limit, Partial([]), chunks[..k])
            == Decoded(Decode(Simple, limit, s).frames, SkipOf(SkippedInstead(left)))
    decreases |chunks|
  {
    if chunks == [] {
      assert false;
    } else {
      var n := |chunks| - 1;
      var init, c := chunks[..n], chunks[n];
      var s := Flatten(init);
      assert chunks == init + [c] == chunks[..n + 1];
      FlattenLast(init, c);
      hide Decode, Parse, Flatten, MeetsOversize;
      if MeetsOversize(limit, s) {
        k, left := FirstOversize(limit, init);
        assert init[..k] == chunks[..k];
      } else {
        FittingStreamExact(limit, init);
        OversizeSplit(limit, s, c);
        var w := Decode(Simple, limit, s).tail.bytes + c;
        ParseOversize(limit, w);
        ChunkLaw(Simple, limit, s, c);
        k, left := |chunks|, Decode(Simple, limit, w).tail.left;
      }
    }
  }

  /** The frames handed on are right, however the stream goes on, exactly while no frame was
      too long for the buffer. */
  lemma HandsOnExactlyFittingStreams(limit: nat, chunks: seq<seq<byte>>)
    requires limit >= SIMPLE_HEADER && Windowed(limit, Partial([]), chunks)
    ensures HandsOnRightly(limit, chunks) <==> !MeetsOversize(limit, Flatten(chunks))
  {
    hide ReadAll, Windowed, Decode, MeetsOversize, Flatten, Oversize, GoesOn;
    if MeetsOversize(limit, Flatten(chunks)) {
      var k, left := FirstOversize(limit, chunks);
      var more := ZerosMisread(limit, chunks[..k], left);
    } else {
      forall k, more | 0 <= k <= |chunks| && GoesOn(limit, chunks[..k], more)
        ensures ReadAll(limit, Partial([]), chunks[..k] + more).frames
             == Decode(Simple, limit, Flatten(chunks[..k] + more)).frames
      {
        FittingPrefix(limit, chunks, k);
        FittingContinuation(limit, chunks[..k], more);
      }
    }
  }

  lemma FittingPrefix(limit: nat, chunks: seq<seq<byte>>, k: nat)
    requires k <= |chunks| && !MeetsOversize(limit, Flatten(chunks))
    ensures !MeetsOversize(limit, Flatten(chunks[..k]))
  {
    hide MeetsOversize, Flatten;
    assert chunks == chunks[..k] + chunks[k..];
    FlattenAppend(chunks[..k], chunks[k..]);
    if MeetsOversize(limit, Flatten(chunks[..k])) {
      OversizeExtends(limit, Flatten(chunks[..k]), Flatten(chunks[k..]));
    }
  }

  lemma FittingContinuation(limit: nat, chunks: seq<seq<byte>>, more: seq<seq<byte>>)
    requires GoesOn(limit, chunks, more) && !MeetsOversize(limit, Flatten(chunks))
    ensures ReadAll(limit, Partial([]), chunks + more) == Decode(Simple, limit, Flatten(chunks + more))
  {
    hide ReadAll, Windowed, Decode, MeetsOversize, Flatten, Oversize;
    OversizeCounted(limit, Flatten(chunks));
    OversizeCounted(limit, Flatten(chunks + more));
    FittingStreamExact(limit, chunks + more);
  }

  /** What the call skips after a header that announces more than the buffer holds: the
      announced length minus all bytes at hand, the header included, modulo 2^64. */
  lemma OversizeSkips(limit: nat, w: seq<byte>)
    requires 4 <= |w| <= limit && BigEndian32(w[..4]) + 4 > limit
    ensures var length := BigEndian32(w[..4]) as int;
            Parse(limit, w)
            == Decoded([], if length > |w| then Skipping(length - |w|)
                           else if length == |w| then Partial([])
                           else Skipping(length - |w| + 0x1_0000_0000_0000_0000))
  {
    hide BigEndian32;
  }

  /** A skip is worked off read by read, and what follows it is parsed. */
  lemma SkipWorksOff(limit: nat, left: nat, chunk: seq<byte>)
    ensures left > |chunk| ==> Read(limit, Skipping(left), chunk) == Decoded([], Skipping(left - |chunk|))
    ensures left <= |chunk| ==> Read(limit, Skipping(left), chunk) == Parse(limit, chunk[left..])
  {
  }

  // ----- the read handler and its sockets -----

  /** An outstanding async_receive: the socket it was started on (sockets are numbered in
      the order in which they were set) and where in the buffer it writes. */
  datatype Receive = Receive(socket: nat, at: nat)

  datatype Outcome = Arrived(chunk: seq<byte>) | Aborted | Failed

  datatype Completion = Completion(read: nat, outcome: Outcome)

  /** simple_worker_proto_handler, with the reads it has outstanding. */
  datatype Link = Link(
    limit: nat,
    live: bool,               // the socket can be locked
    socket: nat,
    pending: seq<Receive>,
    tail: Tail,
    received: seq<seq<byte>>,
    closes: nat)              // calls of the close handler

  function OffsetOf(tail: Tail): nat {
    if tail.Partial? then |tail.bytes| else 0
  }

  function StartRead(l: Link): Link {
    if l.live then l.(pending := l.pending + [Receive(l.socket, OffsetOf(l.tail))]) else l
  }

  function ResetLink(l: Link, live: bool): Link {
    StartRead(l.(live := live, socket := l.socket + 1))
  }

  /** A read can complete with what fits where it was started, as long as no other read
      has moved the offset meanwhile. */
  predicate CanComplete(l: Link, c: Completion) {
    && c.read < |l.pending|
    && (c.outcome.Arrived? ==>
          && l.pending[c.read].at == OffsetOf(l.tail)
          && 0 < |c.outcome.chunk| <= Window(l.limit, l.tail))
  }

  function Complete(l: Link, c: Completion): Link
    requires c.read < |l.pending|
  {
    var rest := l.(pending := l.pending[..c.read] + l.pending[c.read + 1..]);
    match c.outcome
    case Arrived(chunk) =>
      var d := Read(l.limit, l.tail, chunk);
      StartRead(rest.(tail := d.tail, received := l.received + d.frames))
    case Aborted => rest.(live := false)
    case Failed => rest.(live := false, closes := l.closes + 1)
  }

  /** What holds of the handler at every moment. */
  ghost predicate Sound(l: Link) {
    && l.limit >= SIMPLE_HEADER && Settled(l.limit, l.tail)
    && forall r :: r in l.pending ==> r.socket <= l.socket
  }

  lemma CompleteKeepsSound(l: Link, c: Completion)
    requires Sound(l) && CanComplete(l, c)
    ensures Sound(Complete(l, c))
  {
    hide Settled, Read;
    if c.outcome.Arrived? {
      ReadSettles(l.limit, l.tail, c.outcome.chunk);
    }
  }

  function RunAll(l: Link, cs: seq<Completion>): Link
    decreases |cs|
  {
    if cs == [] then l
    else
      var before := RunAll(l, cs[..|cs| - 1]);
      if cs[|cs| - 1].read < |before.pending| then Complete(before, cs[|cs| - 1]) else before
  }

  /** What may happen on a new socket that works: its reads bring bytes, and the cancelled
      reads of earlier sockets are aborted. */
  predicate Future(l: Link, cs: seq<Completion>)
    decreases |cs|
  {
    cs == [] ||
    var n := |cs| - 1;
    var before := RunAll(l, cs[..n]);
    && Future(l, cs[..n]) && CanComplete(before, cs[n])
    && (if before.pending[cs[n].read].socket == before.socket then cs[n].outcome.Arrived? else cs[n].outcome.Aborted?)
  }

  /** The bytes the completions brought, read by read. */
  function Chunks(cs: seq<Completion>): seq<seq<byte>>
    decreases |cs|
  {
    if cs == [] then []
    else
      var last := cs[|cs| - 1];
      Chunks(cs[..|cs| - 1]) + (if last.outcome.Arrived? then [last.outcome.chunk] else [])
  }

  lemma OneMore(l: Link, cs: seq<Completion>, c: Completion)
    requires c.read < |RunAll(l, cs).pending|
    ensures RunAll(l, cs + [c]) == Complete(RunAll(l, cs), c)
    ensures Chunks(cs + [c]) == Chunks(cs) + (if c.outcome.Arrived? then [c.outcome.chunk] else [])
    ensures var before := RunAll(l, cs);
            Future(l, cs + [c]) <==>
              && Future(l, cs) && CanComplete(before, c)
              && (if before.pending[c.read].socket == before.socket then c.outcome.Arrived? else c.outcome.Aborted?)
  {
    assert (cs + [c])[..|cs|] == cs;
  }

  /** A reset changes the socket and starts a read on it if it is live; everything carried
      and outstanding stays. */
  lemma ResetStep(l: Link, live: bool)
    ensures var m := ResetLink(l, live);
            && m.live == live && m.socket == l.socket + 1
            && m.tail == l.tail && m.received == l.received && m.closes == l.closes
            && m.pending == l.pending + (if live then [Receive(l.socket + 1, OffsetOf(l.tail))] else [])
  {
  }

  /** How many of the completions were failures. */
  function Failures(cs: seq<Completion>): nat
    decreases |cs|
  {
    if cs == [] then 0
    else Failures(cs[..|cs| - 1]) + (if cs[|cs| - 1].outcome.Failed? then 1 else 0)
  }

  /** Each completion is of a read that is outstanding then. */
  predicate Completes(l: Link, cs: seq<Completion>)
    decreases |cs|
  {
    cs == [] ||
    var n := |cs| - 1;
    Completes(l, cs[..n]) && CanComplete(RunAll(l, cs[..n]), cs[n])
  }

  lemma CompletionStep(l: Link, c: Completion)
    requires CanComplete(l, c)
    ensures var m := Complete(l, c);
            && m.closes == l.closes + (if c.outcome.Failed? then 1 else 0)
            && (m.live <==> l.live && c.outcome.Arrived?)
            && |m.pending| == (if m.live then |l.pending| else |l.pending| - 1)
            && m.socket == l.socket
  {
    hide Read;
  }

  /** The close handler is called once for each read that failed and never otherwise.  While
      all reads bring bytes, as many stay outstanding; the first that does not takes the
      socket away, and without a socket no read is started. */
  lemma {:induction false} FailuresClose(l: Link, cs: seq<Completion>)
    requires Completes(l, cs)
    ensures var m := RunAll(l, cs);
            && m.closes == l.closes + Failures(cs)
            && (m.live <==> l.live && forall i :: 0 <= i < |cs| ==> cs[i].outcome.Arrived?)
            && (m.live ==> |m.pending| == |l.pending|)
            && (!l.live ==> |m.pending| == |l.pending| - |cs|)
    decreases |cs|
  {
    hide Complete;
    if cs != [] {
      var n := |cs| - 1;
      FailuresClose(l, cs[..n]);
      CompletionStep(RunAll(l, cs[..n]), cs[n]);
      assert forall i :: 0 <= i < n ==> cs[..n][i] == cs[i];
    }
  }

  predicate Reading(l: Link) {
    exists i :: 0 <= i < |l.pending| && l.pending[i].socket == l.socket
  }

  /** Whatever stream of frames that fit arrives on the new socket, in whatever reads, the
      handler has handed on its frames and is waiting for more. */
  ghost predicate ReadsItsStream(l: Link) {
    forall cs :: Future(l, cs) && !MeetsOversize(l.limit, Flatten(Chunks(cs))) ==>
      && RunAll(l, cs).received == l.received + Decode(Simple, l.limit, Flatten(Chunks(cs))).frames
      && Reading(RunAll(l, cs))
  }

  /** The handler of one socket that has read these chunks from a clean start. */
  ghost predicate ReadSoFar(l: Link, m: Link, chunks: seq<seq<byte>>) {
    var run := ReadAll(l.limit, Partial([]), chunks);
    && m == l.(tail := run.tail, received := l.received + run.frames, pending := m.pending)
    && Sound(m) && m.live && m.pending == [Receive(l.socket, OffsetOf(m.tail))]
    && Windowed(l.limit, Partial([]), chunks)
  }

  lemma ReadOneMore(l: Link, m: Link, chunks: seq<seq<byte>>, chunk: seq<byte>)
    requires ReadSoFar(l, m, chunks) && CanComplete(m, Completion(0, Arrived(chunk)))
    ensures ReadSoFar(l, Complete(m, Completion(0, Arrived(chunk))), chunks + [chunk])
  {
    hide Read, Settled, ReadAll, Windowed;
    OneMoreRead(l.limit, Partial([]), chunks, chunk);
    CompleteKeepsSound(m, Completion(0, Arrived(chunk)));
    assert m.pending[..0] + m.pending[1..] == [];
    var d := Read(m.limit, m.tail, chunk);
    var run := ReadAll(l.limit, Partial([]), chunks);
    assert (l.received + run.frames) + d.frames == l.received + (run.frames + d.frames);
  }

  /** Started with nothing carried and nothing outstanding, the handler is a run of reads. */
  lemma {:induction false} IdleStart(l: Link, cs: seq<Completion>)
    requires Sound(l) && l.tail == Partial([]) && l.live && l.pending == [Receive(l.socket, 0)] && Future(l, cs)
    ensures ReadSoFar(l, RunAll(l, cs), Chunks(cs))
    decreases |cs|
  {
    hide Read, Settled;
    if cs == [] {
      NoReadsYet(l.limit, l.tail);
    } else {
      hide Complete, Sound;
      var n := |cs| - 1;
      var init, c := cs[..n], cs[n];
      assert cs == init + [c];
      IdleStart(l, init);
      ReadSoFarPending(l, RunAll(l, init), Chunks(init));
      hide ReadSoFar;
      OneMore(l, init, c);
      ReadOneMore(l, RunAll(l, init), Chunks(init), c.outcome.chunk);
    }
  }

  lemma ReadSoFarPending(l: Link, m: Link, chunks: seq<seq<byte>>)
    requires ReadSoFar(l, m, chunks)
    ensures |m.pending| == 1 && m.pending[0].socket == m.socket
  {
  }

  lemma OldReadAborted(l: Link)
    requires Sound(l) && l.pending != []
    ensures var m := ResetLink(l, true);
            && m.pending[0].socket != m.socket
            && Complete(m, Completion(0, Aborted))
            == m.(pending := l.pending[1..] + [Receive(m.socket, OffsetOf(l.tail))], live := false)
  {
    var m := ResetLink(l, true);
    assert m.pending[0] == l.pending[0] && l.pending[0] in l.pending;
    assert m.pending[..0] + m.pending[1..] == l.pending[1..] + [Receive(m.socket, OffsetOf(l.tail))];
  }

  lemma LastReadOfDeadLink(l: Link, stale: seq<Receive>)
    requires l.pending == stale + [Receive(l.socket, OffsetOf(l.tail))] && !l.live && Window(l.limit, l.tail) > 0
    requires forall r :: r in stale ==> r.socket < l.socket
    ensures var c := Completion(|stale|, Arrived([0]));
            CanComplete(l, c) && l.pending[|stale|].socket == l.socket && !Reading(Complete(l, c))
  {
    hide Read;
    assert l.pending[..|stale|] + l.pending[|stale| + 1..] == stale;
    forall i | 0 <= i < |stale| ensures stale[i].socket != l.socket {
      assert stale[i] in stale;
    }
  }

  /** A read of an earlier socket that is aborted after the reset takes the new socket
      away: the next read is the last. */
  lemma OldReadStopsReading(l: Link) returns (cs: seq<Completion>)
    requires Sound(l) && l.pending != []
    ensures var m := ResetLink(l, true);
            Future(m, cs) && Flatten(Chunks(cs)) == [0] && !Reading(RunAll(m, cs))
  {
    hide Complete, Settled, Reading, Flatten;
    var m := ResetLink(l, true);
    var abort, last := Completion(0, Aborted), Completion(|l.pending| - 1, Arrived([0]));
    OldReadAborted(l);
    OneMore(m, [], abort);
    var first := [] + [abort];
    ReadSettles(l.limit, l.tail, []);
    SettledWindow(l.limit, l.tail);
    LastReadOfDeadLink(RunAll(m, first), l.pending[1..]);
    OneMore(m, first, last);
    cs := first + [last];
    var none: seq<seq<byte>> := [];
    FlattenLast(none, [0]);
    assert Chunks(first) == none && Flatten(none) == [] by { EmptyFlatten(); }
  }

  lemma EmptyFlatten()
    ensures Flatten([]) == []
  {
  }

  lemma SettledWindow(limit: nat, tail: Tail)
    requires limit >= SIMPLE_HEADER && Settled(limit, tail)
    ensures Window(limit, tail) > 0
  {
  }

  /** One byte more completes at most one frame, which is all that was carried and it. */
  lemma OneByte(limit: nat, tail: Tail, x: byte)
    requires limit >= SIMPLE_HEADER && Settled(limit, tail)
    ensures var d := Read(limit, tail, [x]);
            && (d.frames == [] || (tail.Partial? && d.frames == [tail.bytes + [x]]))
            && (d.frames == [] && d.tail.Partial? ==>
                  d.tail == Partial([]) || (tail.Partial? && d.tail == Partial(tail.bytes + [x])))
  {
    if tail.Partial? {
      var w := tail.bytes + [x];
      if |w| >= SIMPLE_HEADER {
        if |tail.bytes| >= SIMPLE_HEADER {
          assert w[..4] == tail.bytes[..4];
        }
        var total := BigEndian32(w[..4]) + SIMPLE_HEADER;
        if total <= limit && total <= |w| {
          assert w[..total] == w && Parse(limit, w[total..]) == Decoded([], Partial([]));
        }
      }
    } else if tail.left == 1 {
      assert Parse(limit, [x][1..]) == Decoded([], Partial([]));
    }
  }

  function ZeroReads(n: nat): (cs: seq<Completion>)
    ensures |cs| == n
  {
    if n == 0 then [] else ZeroReads(n - 1) + [Completion(0, Arrived([0]))]
  }

  /** The handler is alive, reads on its socket, and has handed on a frame more than
      `received`, or keeps something else than the last n bytes. */
  ghost predicate Astray(l: Link, received: seq<seq<byte>>, n: nat) {
    && Sound(l) && l.live && l.pending == [Receive(l.socket, OffsetOf(l.tail))]
    && received <= l.received
    && (l.received == received && l.tail.Partial? ==> |l.tail.bytes| != n)
  }

  lemma AstrayNext(l: Link, received: seq<seq<byte>>, n: nat, x: byte)
    requires Astray(l, received, n)
    ensures var c := Completion(0, Arrived([x]));
            && CanComplete(l, c) && Astray(Complete(l, c), received, n + 1)
            && Complete(l, c).limit == l.limit && Complete(l, c).socket == l.socket
  {
    hide Read, Settled;
    var c := Completion(0, Arrived([x]));
    SettledWindow(l.limit, l.tail);
    CompleteKeepsSound(l, c);
    OneByte(l.limit, l.tail, x);
    var d := Read(l.limit, l.tail, [x]);
    assert l.pending[..0] + l.pending[1..] == [];
    if d.frames == [] {
      assert l.received + d.frames == l.received;
    } else {
      assert |l.received + d.frames| > |received|;
    }
  }

  /** What is known after n zeros, read one by one. */
  ghost predicate ZerosRead(l: Link, end: Link, cs: seq<Completion>, n: nat) {
    && end == RunAll(ResetLink(l, true), cs) && Future(ResetLink(l, true), cs)
    && Flatten(Chunks(cs)) == Zeros(n)
    && Astray(end, l.received, n) && end.limit == l.limit
  }

  lemma NoZerosRead(l: Link)
    requires Sound(l) && l.pending == [] && l.tail != Partial([])
    ensures ZerosRead(l, ResetLink(l, true), [], 0)
  {
    hide Settled;
    EmptyFlatten();
  }

  lemma ZerosReadNext(l: Link, end: Link, cs: seq<Completion>, n: nat)
    requires ZerosRead(l, end, cs, n)
    ensures var c := Completion(0, Arrived([0]));
            c.read < |end.pending| && ZerosRead(l, Complete(end, c), cs + [c], n + 1)
  {
    hide Complete, Flatten, Future, RunAll, Astray, Chunks, CanComplete, Sound, ResetLink;
    var c := Completion(0, Arrived([0]));
    AstrayReads(end, l.received, n);
    AstrayNext(end, l.received, n, 0);
    OneMore(ResetLink(l, true), cs, c);
    FlattenLast(Chunks(cs), [0]);
    assert Zeros(n) + [0] == Zeros(n + 1);
  }

  /** n zeros read one by one after carried bytes. */
  lemma {:induction false} ZerosAfterCarried(l: Link, n: nat)
    requires Sound(l) && l.pending == [] && l.tail != Partial([])
    ensures ZerosRead(l, RunAll(ResetLink(l, true), ZeroReads(n)), ZeroReads(n), n)
  {
    hide Complete, ZerosRead, RunAll, Sound;
    if n == 0 {
      NoZerosRead(l);
      assert RunAll(ResetLink(l, true), []) == ResetLink(l, true) by { NothingRun(ResetLink(l, true)); }
    } else {
      var before := RunAll(ResetLink(l, true), ZeroReads(n - 1));
      ZerosAfterCarried(l, n - 1);
      ZerosReadNext(l, before, ZeroReads(n - 1), n - 1);
      OneMore(ResetLink(l, true), ZeroReads(n - 1), Completion(0, Arrived([0])));
    }
  }

  lemma NothingRun(l: Link)
    ensures RunAll(l, []) == l
  {
  }

  lemma AstrayReads(l: Link, received: seq<seq<byte>>, n: nat)
    requires Astray(l, received, n)
    ensures |l.pending| == 1 && l.pending[0].socket == l.socket
  {
  }

  lemma ZeroLength(z: seq<byte>)
    requires |z| == 4 && z[0] == z[1] == z[2] == z[3] == 0
    ensures BigEndian32(z) == 0
  {
  }

  lemma ZeroFrame(z: seq<byte>)
    requires z == Zeros(4)
    ensures z[..4] == z && z[4..] == [] && z + [] == z && BigEndian32(z) == 0
    ensures IsPacket(Simple, z)
  {
    hide BigEndian32;
    ZeroLength(z);
    assert z[..4] == z;
  }

  lemma ThreeZeros(limit: nat, z: seq<byte>)
    requires |z| == 3
    ensures !MeetsOversize(limit, z) && Decode(Simple, limit, z).frames == []
  {
  }

  lemma FourZeros(limit: nat, z: seq<byte>)
    requires limit >= SIMPLE_HEADER && |z| == 4 && z == z[..4] && BigEndian32(z[..4]) == 0 && IsPacket(Simple, z)
    ensures !MeetsOversize(limit, z) && Decode(Simple, limit, z).frames == [z]
  {
    hide BigEndian32, HeadOf;
    assert z + [] == z && [z] + [] == [z];
    assert Decode(Simple, limit, []) == Decoded([], Partial([]));
    DecodeWhole(Simple, limit, z, []);
    hide Decode;
    assert !MeetsOversize(limit, z[4..]);
  }

  lemma ZeroStream(limit: nat)
    requires limit >= SIMPLE_HEADER
    ensures !MeetsOversize(limit, Zeros(3)) && Decode(Simple, limit, Zeros(3)).frames == []
    ensures !MeetsOversize(limit, Zeros(4)) && Decode(Simple, limit, Zeros(4)).frames == [Zeros(4)]
  {
    hide BigEndian32, HeadOf, Decode, MeetsOversize;
    ZeroFrame(Zeros(4));
    ThreeZeros(limit, Zeros(3));
    FourZeros(limit, Zeros(4));
  }

  /** With bytes or a skip carried over, four zeros are not read as the frame they are. */
  lemma CarriedStateMisreads(l: Link) returns (cs: seq<Completion>)
    requires Sound(l) && l.pending == [] && l.tail != Partial([])
    ensures var m := ResetLink(l, true);
            && Future(m, cs) && !MeetsOversize(l.limit, Flatten(Chunks(cs)))
            && RunAll(m, cs).received != m.received + Decode(Simple, l.limit, Flatten(Chunks(cs))).frames
  {
    hide Read, Settled, Decode, MeetsOversize, Future, Flatten, Chunks, Complete;
    var m := ResetLink(l, true);
    ZeroStream(l.limit);
    ZerosAfterCarried(l, 3);
    ZerosAfterCarried(l, 4);
    var third, c := RunAll(m, ZeroReads(3)), Completion(0, Arrived([0]));
    if third.received != l.received {
      cs := ZeroReads(3);
      assert m.received + [] == m.received;
    } else {
      cs := ZeroReads(4);
      AstrayNext(third, l.received, 3, 0);
      OneMore(m, ZeroReads(3), c);
      FourthZero(third);
    }
  }

  /** Three zeros did not complete a frame and are not what is kept, so the fourth does not
      complete the frame of four zeros. */
  lemma FourthZero(l: Link)
    requires Astray(l, l.received, 3)
    ensures Complete(l, Completion(0, Arrived([0]))).received != l.received + [Zeros(4)]
  {
    hide Read, Settled;
    OneByte(l.limit, l.tail, 0);
    var d := Read(l.limit, l.tail, [0]);
    assert d.frames == [] || |d.frames[0]| != 4;
    assert (l.received + [Zeros(4)])[|l.received|] == Zeros(4);
    assert d.frames != [] ==> (l.received + d.frames)[|l.received|] == d.frames[0];
  }

  /** After a reset the new socket's stream is read correctly exactly when the old one left
      nothing carried and no read outstanding. */
  lemma ResetExactlyWhenIdle(l: Link)
    requires Sound(l)
    ensures ReadsItsStream(ResetLink(l, true)) <==> l.tail == Partial([]) && l.pending == []
  {
    hide Future, Settled, Decode, ReadAll, Windowed, MeetsOversize, RunAll, Chunks, Reading, Flatten;
    var m := ResetLink(l, true);
    if l.tail == Partial([]) && l.pending == [] {
      forall cs | Future(m, cs) && !MeetsOversize(l.limit, Flatten(Chunks(cs)))
        ensures RunAll(m, cs).received == m.received + Decode(Simple, l.limit, Flatten(Chunks(cs))).frames
        ensures Reading(RunAll(m, cs))
      {
        IdleStart(m, cs);
        NoReadsYet(l.limit, l.tail);
        FittingStreamExact(l.limit, Chunks(cs));
        OneReadIsReading(RunAll(m, cs));
      }
    } else if l.pending != [] {
      var cs := OldReadStopsReading(l);
      OneZeroFits(l.limit);
    } else {
      var cs := CarriedStateMisreads(l);
    }
  }

  lemma OneReadIsReading(l: Link)
    requires |l.pending| == 1 && l.pending[0].socket == l.socket
    ensures Reading(l)
  {
  }

  lemma OneZeroFits(limit: nat)
    ensures !MeetsOversize(limit, [0])
  {
  }

  class ProtoHandler {
    const readBuffer: array<byte>
    const readBufferSize: nat
    var live: bool
    var offset: nat
    var skippingBytes: nat
    var received: seq<seq<byte>>    // the frames handed to the buffer handler, in order
    var closes: nat
    ghost var socket: nat
    ghost var pending: seq<Receive>
    ghost var start: Tail           // what was carried when the current socket was set
    ghost var before: seq<seq<byte>>  // frames of earlier sockets
    ghost var chunks: seq<seq<byte>>  // what has arrived since the current socket was set

    ghost function State(): Link
      requires offset <= readBuffer.Length
      reads this, readBuffer
    {
      Link(readBufferSize, live, socket, pending, Carried(readBuffer[..], offset, skippingBytes), received, closes)
    }

    ghost predicate Valid()
      reads this, readBuffer
    {
      && readBufferSize == readBuffer.Length
      && offset < readBufferSize && (skippingBytes > 0 ==> offset == 0)
      && Sound(State())
      && Windowed(readBufferSize, start, chunks)
      && var run := ReadAll(readBufferSize, start, chunks);
      && received == before + run.frames
      && State().tail == run.tail
    }

    constructor (size: nat, live: bool)
      requires SIMPLE_HEADER <= size
      ensures Valid() && fresh(readBuffer) && readBufferSize == size
      ensures State() == Link(size, live, 0, [], Partial([]), [], 0)
      ensures start == Partial([]) && chunks == [] && before == []
    {
      readBuffer, readBufferSize := new byte[size], size;
      this.live, offset, skippingBytes, received, closes := live, 0, 0, [], 0;
      socket, pending, start, before, chunks := 0, [], Partial([]), [], [];
    }

    /** start and start_async_read. */
    method StartAsyncRead()
      requires Valid()
      modifies `pending
      ensures Valid() && State() == StartRead(old(State()))
    {
      hide Settled, Windowed, ReadAll;
      if live {
        pending := pending + [Receive(socket, offset)];
      }
    }

    /** A read completes; with bytes, they are in the buffer behind the carried ones. */
    method OnReceive(ghost read: nat, outcome: Outcome)
      requires Valid() && CanComplete(State(), Completion(read, outcome))
      modifies this, readBuffer
      ensures Valid() && State() == Complete(old(State()), Completion(read, outcome))
      ensures chunks == (if outcome.Arrived? then old(chunks) + [outcome.chunk] else old(chunks))
      ensures start == old(start) && before == old(before) && old(received) <= received
    {
      hide ReadAll, Windowed, Settled, Read;
      CompleteKeepsSound(State(), Completion(read, outcome));
      pending := pending[..read] + pending[read + 1..];
      match outcome {
        case Aborted => live := false;
        case Failed => live, closes := false, closes + 1;
        case Arrived(chunk) =>
          HandleChunk(chunk);
          StartAsyncRead();
      }
    }

    method HandleChunk(chunk: seq<byte>)
      requires Valid() && 0 < |chunk| <= readBufferSize - offset
      modifies `offset, `skippingBytes, `received, `chunks, readBuffer
      ensures Valid() && chunks == old(chunks) + [chunk] && old(received) <= received
      ensures var d := Read(readBufferSize, old(State()).tail, chunk);
              State() == old(State()).(tail := d.tail, received := old(received) + d.frames)
    {
      hide Parse, Decode, ReadAll, Windowed, Settled, Read;
      ghost var tail := State().tail;
      CopyIn(readBuffer, offset, chunk);
      assert readBuffer[..][..offset] == old(readBuffer[..][..offset]);
      assert readBuffer[offset..offset + |chunk|] == chunk;
      OneMoreRead(readBufferSize, start, chunks, chunk);
      ReadSettles(readBufferSize, tail, chunk);
      var newOffset, newSkip, frames :=
        HandleSimpleMessage(readBuffer, |chunk|, readBufferSize, offset, skippingBytes, tail, chunk);
      offset, skippingBytes := newOffset, newSkip;
      received := received + frames;
      chunks := chunks + [chunk];
    }

    /** A new socket: what was carried from the old one is kept, and its read is cancelled
        but completes later. */
    method Reset(live: bool)
      requires Valid()
      modifies this
      ensures Valid() && State() == ResetLink(old(State()), live)
      ensures chunks == [] && before == received == old(received) && start == old(State()).tail
    {
      hide Settled, Windowed, ReadAll;
      NoReadsYet(readBufferSize, State().tail);
      start, before, chunks := State().tail, received, [];
      this.live, socket := live, socket + 1;
      StartAsyncRead();
    }
  }

  lemma NoReadsYet(limit: nat, tail: Tail)
    ensures Windowed(limit, tail, []) && ReadAll(limit, tail, []) == Decoded([], tail)
  {
  }
}
