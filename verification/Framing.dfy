/** The reference both stream reassemblers are proved against: a decoder that sees the
    whole byte stream at once, for the two header conventions the program uses.

    The reassemblers hold one buffer of `limit` bytes.  A packet longer than that is
    dropped; everything else is dispatched whole and in order. */
module Framing {
  import opened Bytes

  /** Simple: a 4-byte payload length, header not included.
      Bili: a 16-byte header whose first word is the length, header included. */
  datatype Format = Simple | Bili

  datatype Head =
    | BadHeader              // the header-length field is not 16
    | ShortLength            // a length below the header's own: the source has no branch for it
    | Packet(total: nat)     // length of the packet, header included

  /** What is carried from one read to the next. */
  datatype Tail =
    | Partial(bytes: seq<byte>)  // an incomplete packet, kept at the front of the buffer
    | Skipping(left: nat)        // bytes of a dropped packet still to come
    | Broken                     // malformed_packet was thrown
    | Stuck                      // a ShortLength header was reached

  datatype Decoded = Decoded(frames: seq<seq<byte>>, tail: Tail)

  /** The (offset, skip) pair a reassembler returns, read as what is carried. */
  function Carried(bytes: seq<byte>, offset: nat, skip: nat): Tail
    requires offset <= |bytes|
  {
    if skip > 0 then Skipping(skip) else Partial(bytes[..offset])
  }

  /** The length field, read through a pointer to the window's first byte. */
  lemma LengthInPlace(bytes: seq<byte>, begin: nat, w: seq<byte>)
    requires 4 <= |w| && begin + |w| <= |bytes| && w == bytes[begin..begin + |w|]
    ensures ByteSwap32(LoadHost32(bytes[begin..begin + 4])) == BigEndian32(w[..4])
  {
    SliceOfSlice(bytes, begin, begin + |w|, 0, 4);
    NetworkRead(w[..4]);
  }

  /** What is left of the window is kept at the front. */
  method KeepRest(buf: array<byte>, begin: nat, remaining: nat, ghost window: seq<byte>)
    requires begin + remaining <= buf.Length && window == buf[begin..begin + remaining]
    modifies buf
    ensures Carried(buf[..], remaining, 0) == Partial(window)
  {
    MoveToFront(buf, begin, remaining);
    assert buf[..][..remaining] == window;
  }

  const SIMPLE_HEADER: nat := 4
  const BILI_HEADER: nat := 16

  function HeaderLength(f: Format): nat {
    match f
    case Simple => SIMPLE_HEADER
    case Bili => BILI_HEADER
  }

  function HeadOf(f: Format, s: seq<byte>): (h: Head)
    requires |s| >= HeaderLength(f)
    ensures h.Packet? ==> h.total >= HeaderLength(f)
  {
    match f
    case Simple => Packet(BigEndian32(s[..4]) + SIMPLE_HEADER)
    case Bili =>
      if BigEndian16(s[4..6]) != BILI_HEADER then BadHeader
      else if BigEndian32(s[..4]) < BILI_HEADER then ShortLength
      else Packet(BigEndian32(s[..4]))
  }

  function Cons(frame: seq<byte>, d: Decoded): Decoded {
    Decoded([frame] + d.frames, d.tail)
  }

  function Then(a: Decoded, b: Decoded): Decoded {
    Decoded(a.frames + b.frames, b.tail)
  }

  /** The whole-stream decoder. */
  function Decode(f: Format, limit: nat, s: seq<byte>): Decoded
    decreases |s|
  {
    if |s| < HeaderLength(f) then Decoded([], Partial(s))
    else
      match HeadOf(f, s)
      case BadHeader => Decoded([], Broken)
      case ShortLength => Decoded([], Stuck)
      case Packet(total) =>
        if total > limit then
          if total <= |s| then Decode(f, limit, s[total..])
          else Decoded([], Skipping(total - |s|))
        else if total > |s| then Decoded([], Partial(s))
        else Cons(s[..total], Decode(f, limit, s[total..]))
  }

  /** The decoder continued from what an earlier read left behind. */
  function Resume(f: Format, limit: nat, tail: Tail, chunk: seq<byte>): Decoded {
    match tail
    case Partial(bytes) => Decode(f, limit, bytes + chunk)
    case Skipping(left) =>
      if left > |chunk| then Decoded([], Skipping(left - |chunk|))
      else Decode(f, limit, chunk[left..])
    case Broken => Decoded([], Broken)
    case Stuck => Decoded([], Stuck)
  }

  /** The decoder fed one read after another. */
  function FeedAll(f: Format, limit: nat, tail: Tail, chunks: seq<seq<byte>>): Decoded
    decreases |chunks|
  {
    if chunks == [] then Decoded([], tail)
    else
      var first := Resume(f, limit, tail, chunks[0]);
      Then(first, FeedAll(f, limit, first.tail, chunks[1..]))
  }

  lemma HeadOfPrefix(f: Format, s: seq<byte>, t: seq<byte>)
    requires |s| >= HeaderLength(f)
    ensures HeadOf(f, s + t) == HeadOf(f, s)
  {
    assert (s + t)[..4] == s[..4];
    if f.Bili? {
      assert (s + t)[4..6] == s[4..6];
    }
  }

  lemma ConsThen(frame: seq<byte>, a: Decoded, b: Decoded)
    ensures Cons(frame, Then(a, b)) == Then(Cons(frame, a), b)
  {
    assert [frame] + (a.frames + b.frames) == ([frame] + a.frames) + b.frames;
  }

  lemma ThenAssociative(a: Decoded, b: Decoded, c: Decoded)
    ensures Then(Then(a, b), c) == Then(a, Then(b, c))
  {
    assert (a.frames + b.frames) + c.frames == a.frames + (b.frames + c.frames);
  }

  lemma NothingThen(tail: Tail, d: Decoded)
    ensures Then(Decoded([], tail), d) == d
  {
    assert [] + d.frames == d.frames;
  }

  /** The one step of Decode, on a stream that holds its first packet whole. */
  lemma DecodeWhole(f: Format, limit: nat, p: seq<byte>, rest: seq<byte>)
    requires |p| >= HeaderLength(f) && HeadOf(f, p) == Packet(|p|)
    ensures Decode(f, limit, p + rest)
         == if |p| > limit then Decode(f, limit, rest) else Cons(p, Decode(f, limit, rest))
  {
    HeadOfPrefix(f, p, rest);
    assert (p + rest)[|p|..] == rest && (p + rest)[..|p|] == p;
  }

  /** Decoding s and then resuming with t is decoding s + t. */
  lemma {:induction false} ChunkLaw(f: Format, limit: nat, s: seq<byte>, t: seq<byte>)
    ensures Decode(f, limit, s + t)
         == Then(Decode(f, limit, s), Resume(f, limit, Decode(f, limit, s).tail, t))
    decreases |s|
  {
    var ds := Decode(f, limit, s);
    if |s| < HeaderLength(f) {
      NothingThen(ds.tail, Decode(f, limit, s + t));
    } else {
      HeadOfPrefix(f, s, t);
      var h := HeadOf(f, s);
      if h.Packet? && h.total <= |s| {
        var p, rest := s[..h.total], s[h.total..];
        assert s == p + rest && s + t == p + (rest + t);
        HeadOfPrefix(f, p, rest);
        DecodeWhole(f, limit, p, rest);
        DecodeWhole(f, limit, p, rest + t);
        ChunkLaw(f, limit, rest, t);
        ConsThen(p, Decode(f, limit, rest), Resume(f, limit, Decode(f, limit, rest).tail, t));
      } else {
        assert ds.frames == [];
        ChunkLawAtHeader(f, limit, s, t);
        NothingThen(ds.tail, Resume(f, limit, ds.tail, t));
      }
    }
  }

  lemma ChunkLawAtHeader(f: Format, limit: nat, s: seq<byte>, t: seq<byte>)
    requires |s| >= HeaderLength(f)
    requires HeadOf(f, s).Packet? ==> HeadOf(f, s).total > |s|
    ensures Decode(f, limit, s + t) == Resume(f, limit, Decode(f, limit, s).tail, t)
  {
    HeadOfPrefix(f, s, t);
    var h := HeadOf(f, s);
    if h.Packet? && limit < h.total <= |s| + |t| {
      assert (s + t)[h.total..] == t[h.total - |s|..];
    }
  }

  /** Any chunking of a stream gives the same frames and the same residual as decoding
      the whole stream at once. */
  lemma {:induction false} ChunkIndependence(f: Format, limit: nat, s: seq<byte>, chunks: seq<seq<byte>>)
    ensures Then(Decode(f, limit, s), FeedAll(f, limit, Decode(f, limit, s).tail, chunks))
         == Decode(f, limit, s + Flatten(chunks))
    decreases |chunks|
  {
    var ds := Decode(f, limit, s);
    if chunks == [] {
      assert s + Flatten(chunks) == s;
    } else {
      var c, rest := chunks[0], chunks[1..];
      var first := Resume(f, limit, ds.tail, c);
      assert s + Flatten(chunks) == (s + c) + Flatten(rest);
      ChunkLaw(f, limit, s, c);
      ChunkIndependence(f, limit, s + c, rest);
      ThenAssociative(ds, first, FeedAll(f, limit, first.tail, rest));
    }
  }

  predicate EndsWith(s: seq<byte>, bytes: seq<byte>) {
    |bytes| <= |s| && bytes == s[|s| - |bytes|..]
  }

  lemma EndOfRest(s: seq<byte>, k: nat, bytes: seq<byte>)
    requires k <= |s| && EndsWith(s[k..], bytes)
    ensures EndsWith(s, bytes)
  {
    SliceOfSlice(s, k, |s|, |s| - k - |bytes|, |s| - k);
  }

  /** The carried state leaves room to read into, is never both kinds at once, and is a
      suffix of the stream. */
  lemma {:induction false} ResidualBounds(f: Format, limit: nat, s: seq<byte>)
    requires limit >= HeaderLength(f)
    ensures var tail := Decode(f, limit, s).tail;
            && (tail.Partial? ==> |tail.bytes| < limit && EndsWith(s, tail.bytes))
            && (tail.Skipping? ==> 0 < tail.left)
    decreases |s|
  {
    hide HeadOf;
    if |s| >= HeaderLength(f) && HeadOf(f, s).Packet? && HeadOf(f, s).total <= |s| {
      hide EndsWith;
      var k := HeadOf(f, s).total;
      ResidualBounds(f, limit, s[k..]);
      var tail := Decode(f, limit, s[k..]).tail;
      assert Decode(f, limit, s).tail == tail;
      hide Decode;
      if tail.Partial? {
        EndOfRest(s, k, tail.bytes);
      }
    }
  }

  // ----- what the stream was made of -----

  /** p is one well-formed packet: its header announces exactly its length. */
  predicate IsPacket(f: Format, p: seq<byte>) {
    |p| >= HeaderLength(f) && HeadOf(f, p) == Packet(|p|)
  }

  function Fitting(limit: nat, packets: seq<seq<byte>>): seq<seq<byte>> {
    if packets == [] then []
    else if |packets[0]| <= limit then [packets[0]] + Fitting(limit, packets[1..])
    else Fitting(limit, packets[1..])
  }

  /** Whatever packets were sent, the decoder delivers those that fit the buffer, in
      order, drops the others whole, and keeps nothing. */
  lemma {:induction false} DecodeOfPackets(f: Format, limit: nat, packets: seq<seq<byte>>)
    requires forall p :: p in packets ==> IsPacket(f, p)
    ensures Decode(f, limit, Flatten(packets)) == Decoded(Fitting(limit, packets), Partial([]))
  {
    if packets != [] {
      var p, rest := packets[0], packets[1..];
      assert p in packets;
      DecodeWhole(f, limit, p, Flatten(rest));
      DecodeOfPackets(f, limit, rest);
    }
  }

  lemma FittingAll(limit: nat, packets: seq<seq<byte>>)
    requires forall p :: p in packets ==> |p| <= limit
    ensures Fitting(limit, packets) == packets
  {
  }

  /** A stream cut short delivers a prefix of what the whole stream would. */
  lemma PrefixDelivers(f: Format, limit: nat, s: seq<byte>, t: seq<byte>)
    requires s <= t
    ensures Decode(f, limit, s).frames <= Decode(f, limit, t).frames
  {
    assert t == s + t[|s|..];
    ChunkLaw(f, limit, s, t[|s|..]);
  }
}
