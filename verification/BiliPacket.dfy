/** The live-server side reassembler and packet handler of the worker
    (src/worker/bili_packet.cpp), which parse in place in one fixed buffer, and the
    connection that feeds them its own carried state. */
module BiliPacket {
  import opened Bytes
  import opened Framing
  import opened Prelude

  type Message = seq<byte>

  /** Library code the handler calls, left uninterpreted. */
  datatype Services = Services(
    uncompress: seq<byte> -> Option<seq<byte>>,
    serializeBuffer: (seq<byte>, int32) -> Option<Message>,
    serializePopularity: (uint32, int32) -> Message)

  /** Undefined: a packet length below the header's own was reached. */
  datatype Status = Handled | Thrown | Undefined

  datatype Delivery = Delivery(messages: seq<Message>, status: Status)

  const ZLIB_BUFFER_SIZE: nat := 256 * 1024
  const ZLIB_COMPRESSED: nat := 2
  const HEARTBEAT_RESP: nat := 3
  const JSON_MESSAGE: nat := 5

  // ----- reference -----

  function Inflate(sv: Services, payload: seq<byte>): (r: Option<seq<byte>>)
    ensures r.Some? ==> |r.value| <= ZLIB_BUFFER_SIZE
  {
    var r := sv.uncompress(payload);
    if r.Some? && |r.value| > ZLIB_BUFFER_SIZE then None else r
  }

  /** The messages one packet stands for.  A compressed packet stands for the messages
      of the stream inside it; `fuel` bounds how deep that goes. */
  function DeliverPacket(sv: Services, fuel: nat, room: int32, p: seq<byte>): Delivery
    decreases fuel, 0, 0
  {
    if |p| < BILI_HEADER then Delivery([], Undefined)
    else if BigEndian16(p[4..6]) != BILI_HEADER then Delivery([], Thrown)
    else if BigEndian16(p[6..8]) == ZLIB_COMPRESSED then
      var content := Inflate(sv, p[16..]);
      if content.None? || fuel == 0 then Delivery([], Handled)
      else Deliver(sv, fuel - 1, room, Decode(Bili, |content.value|, content.value))
    else
      Delivery(PlainMessages(sv, room, BigEndian32(p[8..12]), p[16..]), Handled)
  }

  function PlainMessages(sv: Services, room: int32, opCode: uint32, payload: seq<byte>): seq<Message> {
    if opCode == JSON_MESSAGE then
      var msg := sv.serializeBuffer(payload, room);
      if msg.Some? then [msg.value] else []
    else if opCode == HEARTBEAT_RESP && |payload| == 4 then
      [sv.serializePopularity(BigEndian32(payload), room)]
    else []
  }

  /** Packets in order, up to and including the first that throws. */
  function DeliverFrames(sv: Services, fuel: nat, room: int32, frames: seq<seq<byte>>): Delivery
    decreases fuel, 1, |frames|
  {
    if frames == [] then Delivery([], Handled)
    else
      var first := DeliverPacket(sv, fuel, room, frames[0]);
      if first.status != Handled then first
      else Before(first.messages, DeliverFrames(sv, fuel, room, frames[1..]))
  }

  function Before(messages: seq<Message>, d: Delivery): Delivery {
    Delivery(messages + d.messages, d.status)
  }

  function Deliver(sv: Services, fuel: nat, room: int32, d: Decoded): Delivery
    decreases fuel, 2, 0
  {
    var r := DeliverFrames(sv, fuel, room, d.frames);
    if r.status != Handled then r
    else Delivery(r.messages, match d.tail case Broken => Thrown case Stuck => Undefined case _ => Handled)
  }

  /** Everything a byte stream delivers, seen at once through a buffer of `limit` bytes. */
  function DeliverStream(sv: Services, fuel: nat, limit: nat, room: int32, stream: seq<byte>): Delivery {
    Deliver(sv, fuel, room, Decode(Bili, limit, stream))
  }

  lemma BeforeTwice(a: seq<Message>, b: seq<Message>, d: Delivery)
    ensures Before(a, Before(b, d)) == Before(a + b, d)
  {
    assert a + (b + d.messages) == (a + b) + d.messages;
  }

  lemma DeliverCons(sv: Services, fuel: nat, room: int32, p: seq<byte>, d: Decoded)
    ensures Deliver(sv, fuel, room, Cons(p, d))
         == var first := DeliverPacket(sv, fuel, room, p);
            if first.status != Handled then first
            else Before(first.messages, Deliver(sv, fuel, room, d))
  {
    assert ([p] + d.frames)[0] == p && ([p] + d.frames)[1..] == d.frames;
  }

  /** Delivering a continued decoding is delivering its parts, unless the first part
      already stopped. */
  lemma {:induction false} DeliverThen(sv: Services, fuel: nat, room: int32, a: Decoded, b: Decoded)
    ensures Deliver(sv, fuel, room, Then(a, b))
         == var first := DeliverFrames(sv, fuel, room, a.frames);
            if first.status != Handled then first
            else Before(first.messages, Deliver(sv, fuel, room, b))
    decreases |a.frames|
  {
    if a.frames == [] {
      NothingThen(a.tail, b);
      assert forall d: Delivery :: Before([], d) == d;
    } else {
      var p, rest := a.frames[0], Decoded(a.frames[1..], a.tail);
      assert a == Cons(p, rest);
      ConsThen(p, rest, b);
      DeliverCons(sv, fuel, room, p, Then(rest, b));
      DeliverThen(sv, fuel, room, rest, b);
      var first := DeliverPacket(sv, fuel, room, p);
      var middle := DeliverFrames(sv, fuel, room, rest.frames);
      BeforeTwice(first.messages, middle.messages, Deliver(sv, fuel, room, b));
    }
  }

  /** What a stream delivers never depends on what follows it: a longer stream delivers
      the same messages first, and a stopped stream stays stopped. */
  lemma DeliverExtends(sv: Services, fuel: nat, limit: nat, room: int32, s: seq<byte>, t: seq<byte>)
    ensures var now := DeliverStream(sv, fuel, limit, room, s);
            var later := DeliverStream(sv, fuel, limit, room, s + t);
            if now.status == Handled then
              var more := Resume(Bili, limit, Decode(Bili, limit, s).tail, t);
              later == Before(now.messages, Deliver(sv, fuel, room, more))
            else later == now
  {
    var d := Decode(Bili, limit, s);
    ChunkLaw(Bili, limit, s, t);
    DeliverThen(sv, fuel, room, d, Resume(Bili, limit, d.tail, t));
  }

  /** The beginning of a packet that is not all there. */
  predicate Incomplete(rest: seq<byte>) {
    |rest| < BILI_HEADER || (HeadOf(Bili, rest).Packet? && HeadOf(Bili, rest).total > |rest|)
  }

  lemma IncompleteDelivers(sv: Services, fuel: nat, limit: nat, room: int32, rest: seq<byte>)
    requires Incomplete(rest)
    ensures Deliver(sv, fuel, room, Resume(Bili, limit, Partial([]), rest)) == Delivery([], Handled)
  {
    hide HeadOf;
    assert [] + rest == rest;
    assert DeliverFrames(sv, fuel, room, []) == Delivery([], Handled);
  }

  /** A compressed packet stands for exactly the packets inside it; what follows the last
      of them is dropped if it is not a whole packet. */
  lemma CompressedIsFlattened(sv: Services, fuel: nat, room: int32, p: seq<byte>, inner: seq<seq<byte>>,
                              rest: seq<byte>)
    requires IsPacket(Bili, p) && BigEndian16(p[6..8]) == ZLIB_COMPRESSED && fuel > 0
    requires (forall q :: q in inner ==> IsPacket(Bili, q)) && Incomplete(rest)
    requires Inflate(sv, p[16..]) == Some(Flatten(inner) + rest)
    ensures DeliverPacket(sv, fuel, room, p) == DeliverFrames(sv, fuel - 1, room, inner)
  {
    var content := Flatten(inner) + rest;
    assert DeliverPacket(sv, fuel, room, p) == Deliver(sv, fuel - 1, room, Decode(Bili, |content|, content));
    ContentIsFlattened(sv, fuel - 1, |content|, room, inner, rest);
  }

  lemma ContentIsFlattened(sv: Services, fuel: nat, limit: nat, room: int32, inner: seq<seq<byte>>, rest: seq<byte>)
    requires (forall q :: q in inner ==> IsPacket(Bili, q)) && Incomplete(rest) && limit >= |Flatten(inner)|
    ensures Deliver(sv, fuel, room, Decode(Bili, limit, Flatten(inner) + rest)) == DeliverFrames(sv, fuel, room, inner)
  {
    hide IsPacket, Incomplete, Deliver, DeliverFrames, Decode, Resume;
    DecodeOfPackets(Bili, limit, inner);
    forall q | q in inner ensures |q| <= limit {
      PartFits(inner, q);
    }
    FittingAll(limit, inner);
    ChunkLaw(Bili, limit, Flatten(inner), rest);
    var more := Resume(Bili, limit, Partial([]), rest);
    DeliverThen(sv, fuel, room, Decoded(inner, Partial([])), more);
    IncompleteDelivers(sv, fuel, limit, room, rest);
    var first := DeliverFrames(sv, fuel, room, inner);
    assert first.messages + [] == first.messages;
  }

  lemma {:induction false} PartFits(parts: seq<seq<byte>>, q: seq<byte>)
    requires q in parts
    ensures |q| <= |Flatten(parts)|
  {
    if q != parts[0] {
      PartFits(parts[1..], q);
    }
  }

  // ----- what a stream delivers, from its bytes -----

  /** A packet at the front of a stream delivers its messages and what follows comes after
      them; one too long for the buffer delivers nothing. */
  lemma FrontPacket(sv: Services, fuel: nat, limit: nat, room: int32, p: seq<byte>, rest: seq<byte>)
    requires IsPacket(Bili, p)
    ensures |p| > limit ==> DeliverStream(sv, fuel, limit, room, p + rest) == DeliverStream(sv, fuel, limit, room, rest)
    ensures |p| <= limit ==>
      var one := DeliverPacket(sv, fuel, room, p);
      DeliverStream(sv, fuel, limit, room, p + rest)
      == if one.status != Handled then one
         else Delivery(one.messages + DeliverStream(sv, fuel, limit, room, rest).messages,
                       DeliverStream(sv, fuel, limit, room, rest).status)
  {
    hide DeliverPacket, DeliverFrames, HeadOf;
    DecodeWhole(Bili, limit, p, rest);
    DeliverCons(sv, fuel, room, p, Decode(Bili, limit, rest));
  }

  /** The header of a packet, field by field: its length, the header's length 16, and the
      protocol version and operation at the places they are read from. */
  predicate HasHeader(p: seq<byte>, version: nat, operation: nat) {
    && |p| >= 16 && BigEndian32(p[0..4]) == |p|
    && p[4] == 0 && p[5] == 16
    && BigEndian16(p[6..8]) == version && BigEndian32(p[8..12]) == operation
  }

  lemma HeaderIsPacket(p: seq<byte>, version: nat, operation: nat)
    requires HasHeader(p, version, operation)
    ensures IsPacket(Bili, p) && BigEndian16(p[4..6]) == 16
  {
    assert p[..4] == p[0..4];
    assert p[4..6] == [0, 16] && BigEndian16([0, 16]) == 16;
    hide BigEndian32, BigEndian16;
  }

  /** What one uncompressed packet delivers: with operation 5 the message its payload
      serialises to, if it does; with operation 3 and four bytes the popularity they hold;
      with any other nothing. */
  lemma PlainPacketDelivers(sv: Services, fuel: nat, limit: nat, room: int32, p: seq<byte>,
                            version: nat, operation: nat)
    requires HasHeader(p, version, operation) && version != 2 && |p| <= limit
    ensures DeliverStream(sv, fuel, limit, room, p).status == Handled
    ensures var messages := DeliverStream(sv, fuel, limit, room, p).messages;
            && (operation == 5 ==>
                  match sv.serializeBuffer(p[16..], room)
                  case Some(m) => messages == [m]
                  case None => messages == [])
            && (operation == 3 ==>
                  messages == if |p| == 20 then [sv.serializePopularity(BigEndian32(p[16..20]), room)] else [])
            && (operation != 3 && operation != 5 ==> messages == [])
  {
    HeaderIsPacket(p, version, operation);
    hide BigEndian32, BigEndian16, IsPacket, DeliverStream;
    FrontPacket(sv, fuel, limit, room, p, []);
    assert p + [] == p && (|p| == 20 ==> p[16..] == p[16..20]);
    EmptyStream(sv, fuel, limit, room);
    assert DeliverPacket(sv, fuel, room, p) == Delivery(PlainMessages(sv, room, operation, p[16..]), Handled);
    assert PlainMessages(sv, room, operation, p[16..]) + [] == PlainMessages(sv, room, operation, p[16..]);
  }

  lemma EmptyStream(sv: Services, fuel: nat, limit: nat, room: int32)
    ensures DeliverStream(sv, fuel, limit, room, []) == Delivery([], Handled)
  {
    assert DeliverFrames(sv, fuel, room, []) == Delivery([], Handled);
  }

  /** What one compressed packet delivers: what a stream of its content does, through a
      buffer of just that size; nothing if it cannot be decompressed into 262144 bytes. */
  lemma CompressedPacketDelivers(sv: Services, fuel: nat, limit: nat, room: int32, p: seq<byte>, operation: nat)
    requires HasHeader(p, 2, operation) && |p| <= limit && fuel > 0
    ensures DeliverStream(sv, fuel, limit, room, p)
         == match sv.uncompress(p[16..])
            case Some(content) =>
              if |content| <= 262144 then DeliverStream(sv, fuel - 1, |content|, room, content)
              else Delivery([], Handled)
            case None => Delivery([], Handled)
  {
    HeaderIsPacket(p, 2, operation);
    hide BigEndian32, BigEndian16, IsPacket, DeliverFrames, Decode;
    FrontPacket(sv, fuel, limit, room, p, []);
    assert p + [] == p;
    EmptyStream(sv, fuel, limit, room);
    var one := DeliverPacket(sv, fuel, room, p);
    assert one.messages + [] == one.messages;
  }

  /** A stream with a wrong header length in front delivers nothing and closes. */
  lemma BadHeaderThrows(sv: Services, fuel: nat, limit: nat, room: int32, s: seq<byte>)
    requires |s| >= 16 && (s[4] != 0 || s[5] != 16)
    ensures DeliverStream(sv, fuel, limit, room, s) == Delivery([], Thrown)
  {
    assert s[4..6] == [s[4], s[5]];
    assert BigEndian16([s[4], s[5]]) != 16;
    hide BigEndian16, BigEndian32;
    assert DeliverFrames(sv, fuel, room, []) == Delivery([], Handled);
  }

  /** What is left to deliver and to carry when the window w is still to be parsed. */
  datatype Rest = Rest(delivery: Delivery, tail: Tail)

  function RestOf(sv: Services, fuel: nat, limit: nat, room: int32, w: seq<byte>): Rest {
    Rest(DeliverStream(sv, fuel, limit, room, w), Decode(Bili, limit, w).tail)
  }

  /** The decoder's first step on a window of bytes, in the order in which the program
      tests it. */
  lemma FirstPacket(sv: Services, fuel: nat, limit: nat, room: int32, w: seq<byte>)
    ensures var rest := RestOf(sv, fuel, limit, room, w);
            if |w| < BILI_HEADER then rest == Rest(Delivery([], Handled), Partial(w))
            else if BigEndian16(w[4..6]) != BILI_HEADER then rest == Rest(Delivery([], Thrown), Broken)
            else var length := BigEndian32(w[..4]);
              if length < BILI_HEADER then rest == Rest(Delivery([], Undefined), Stuck)
              else if |w| < length then
                rest == Rest(Delivery([], Handled), if length > limit then Skipping(length - |w|) else Partial(w))
              else if length <= limit then
                var one := DeliverPacket(sv, fuel, room, w[..length]);
                var others := RestOf(sv, fuel, limit, room, w[length..]);
                && IsPacket(Bili, w[..length])
                && rest.tail == others.tail
                && rest.delivery == if one.status != Handled then one else Before(one.messages, others.delivery)
              else true
  {
    assert DeliverFrames(sv, fuel, room, []) == Delivery([], Handled);
    if |w| >= BILI_HEADER {
      var length := BigEndian32(w[..4]);
      if BigEndian16(w[4..6]) == BILI_HEADER && BILI_HEADER <= length <= |w| && length <= limit {
        var p, rest := w[..length], w[length..];
        assert w == p + rest;
        HeadOfPrefix(Bili, p, rest);
        DeliverCons(sv, fuel, room, p, Decode(Bili, limit, rest));
      }
    }
  }

  /** The header fields of a whole packet, read through a pointer to its first byte. */
  lemma PacketInPlace(bytes: seq<byte>, begin: nat, p: seq<byte>)
    requires IsPacket(Bili, p) && begin + |p| <= |bytes| && p == bytes[begin..begin + |p|]
    ensures BigEndian32(bytes[begin..begin + 4]) == |p|
    ensures bytes[begin + 4..begin + 6] == p[4..6] && BigEndian16(p[4..6]) == BILI_HEADER
    ensures bytes[begin + 6..begin + 8] == p[6..8]
    ensures bytes[begin + 8..begin + 12] == p[8..12]
    ensures bytes[begin + 16..begin + |p|] == p[16..]
  {
    SliceOfSlice(bytes, begin, begin + |p|, 0, 4);
    SliceOfSlice(bytes, begin, begin + |p|, 4, 6);
    SliceOfSlice(bytes, begin, begin + |p|, 6, 8);
    SliceOfSlice(bytes, begin, begin + |p|, 8, 12);
    SliceOfSlice(bytes, begin, begin + |p|, 16, |p|);
  }

  /** Bytes from `end` on are as before, so the rest of the window is too. */
  lemma RestInPlace(before: seq<byte>, after: seq<byte>, begin: nat, w: seq<byte>, length: nat)
    requires length <= |w| && begin + |w| <= |before| == |after| && w == before[begin..begin + |w|]
    requires after[begin + length..] == before[begin + length..]
    ensures after[begin + length..begin + |w|] == w[length..]
  {
    SliceOfSlice(after, begin + length, |after|, 0, |w| - length);
    SliceOfSlice(before, begin + length, |before|, 0, |w| - length);
    SliceOfSlice(before, begin, begin + |w|, length, |w|);
  }

  // ----- the program -----

  /** serialize_buffer parses destructively: the payload bytes are left with any value,
      and the byte that ends the text must be NUL. */
  method SerializeInPlace(sv: Services, buf: array<byte>, from: nat, size: nat, room: int32)
    returns (msg: Option<Message>)
    requires from + size < buf.Length && buf[from + size] == 0
    modifies buf
    ensures msg == sv.serializeBuffer(old(buf[from..from + size]), room)
    ensures buf[..from] == old(buf[..from]) && buf[from + size..] == old(buf[from + size..])
  {
    msg := sv.serializeBuffer(buf[from..from + size], room);
    for i := from to from + size
      invariant forall j :: 0 <= j < from || from + size <= j < buf.Length ==> buf[j] == old(buf[j])
    {
      var left: byte := *;
      buf[i] := left;
    }
  }

  /** The payload is parsed as text: the byte behind it is set to NUL meanwhile and then
      put back. */
  method HandleJson(sv: Services, buf: array<byte>, from: nat, size: nat, room: int32)
    returns (msg: Option<Message>)
    requires from + size < buf.Length
    modifies buf
    ensures msg == sv.serializeBuffer(old(buf[from..from + size]), room)
    ensures buf[..from] == old(buf[..from]) && buf[from + size..] == old(buf[from + size..])
  {
    var end := from + size;
    var last := buf[end];
    buf[end] := 0;
    assert buf[from..from + size] == old(buf[from..from + size]);
    ghost var patched := buf[..];
    msg := SerializeInPlace(sv, buf, from, size, room);
    assert forall j {:trigger buf[j]} :: end < j < buf.Length ==>
      buf[j] == buf[end..][j - end] == patched[end..][j - end];
    assert forall j {:trigger buf[j]} :: 0 <= j < from ==> buf[j] == buf[..from][j] == patched[..from][j];
    buf[end] := last;
  }

  /** Handles the packet at `begin`.  Nothing outside it is changed, although the byte
      after it is patched for a while. */
  method HandlePacket(sv: Services, fuel: nat, buf: array<byte>, begin: nat, ghost p: seq<byte>, room: int32)
    returns (out: Delivery)
    requires begin + |p| < buf.Length && p == buf[begin..begin + |p|] && IsPacket(Bili, p)
    requires DeliverPacket(sv, fuel, room, p).status != Undefined
    modifies buf
    ensures out == DeliverPacket(sv, fuel, room, p)
    ensures buf[..begin] == old(buf[..begin])
    ensures buf[begin + |p|..] == old(buf[begin + |p|..])
    decreases fuel, 0
  {
    hide Decode, DeliverFrames, HeadOf, BigEndian32, BigEndian16, LoadHost32, ByteSwap32;
    PacketInPlace(buf[..], begin, p);
    if BigEndian16(buf[begin + 4..begin + 6]) != BILI_HEADER {
      return Delivery([], Thrown);
    }
    var length := BigEndian32(buf[begin..begin + 4]);
    assert length == |p|;
    var payloadSize := length - BILI_HEADER;

    if BigEndian16(buf[begin + 6..begin + 8]) == ZLIB_COMPRESSED {
      var content := Inflate(sv, buf[begin + 16..begin + length]);
      if content.None? || fuel == 0 {
        return Delivery([], Handled);
      }
      var size := |content.value|;
      var zlibBuffer := new byte[size + 1];
      CopyIn(zlibBuffer, 0, content.value);
      assert zlibBuffer[0..size] == content.value == [] + content.value;
      var offset, skip;
      offset, skip, out := HandleBuffer(sv, fuel - 1, zlibBuffer, size, size, 0, 0, room, Partial([]), content.value);
    } else {
      var opCode := BigEndian32(buf[begin + 8..begin + 12]);
      if opCode == JSON_MESSAGE {
        var msg := HandleJson(sv, buf, begin + 16, payloadSize, room);
        out := Delivery(if msg.Some? then [msg.value] else [], Handled);
      } else if opCode == HEARTBEAT_RESP {
        if payloadSize != 4 {
          return Delivery([], Handled);
        }
        var popularity := ByteSwap32(LoadHost32(buf[begin + 16..begin + length]));
        NetworkRead(p[16..]);
        out := Delivery([sv.serializePopularity(popularity, room)], Handled);
      } else {
        out := Delivery([], Handled);  // join_room_resp, or an unknown op code
      }
    }
  }

  method ReadHeader(buf: array<byte>, begin: nat, ghost window: seq<byte>)
    returns (length: uint32, headerLength: nat)
    requires BILI_HEADER <= |window| && begin + |window| <= buf.Length && window == buf[begin..begin + |window|]
    ensures length == BigEndian32(window[..4]) && headerLength == BigEndian16(window[4..6])
  {
    LengthInPlace(buf[..], begin, window);
    SliceOfSlice(buf[..], begin, begin + |window|, 4, 6);
    length := ByteSwap32(LoadHost32(buf[begin..begin + 4]));
    headerLength := BigEndian16(buf[begin + 4..begin + 6]);
  }

  /** The loop over the packets of one read: bytes [first, first + size) are parsed. */
  method ParseWindow(sv: Services, fuel: nat, buf: array<byte>, transferred: nat, bufferSize: nat,
                     lastRemaining: nat, first: nat, size: nat, room: int32, ghost all: seq<byte>)
    returns (offset: nat, skip: nat, out: Delivery)
    requires first + size <= bufferSize < buf.Length && all == buf[first..first + size]
    requires transferred <= bufferSize && size <= transferred + lastRemaining
    requires DeliverStream(sv, fuel, bufferSize, room, all).status != Undefined
    modifies buf
    ensures out == DeliverStream(sv, fuel, bufferSize, room, all)
    ensures offset <= bufferSize && (skip > 0 ==> offset == 0)
    ensures out.status == Handled ==> Carried(buf[..], offset, skip) == Decode(Bili, bufferSize, all).tail
    decreases fuel, 1
  {
    hide Decode, Deliver, DeliverStream, DeliverFrames, DeliverPacket, HeadOf;
    hide BigEndian32, BigEndian16;
    out := Delivery([], Handled);
    var begin, remaining := first, size;
    ghost var goal, window := RestOf(sv, fuel, bufferSize, room, all), all;
    while remaining > 0
      invariant 0 <= begin && 0 <= remaining && begin + remaining == first + size
      invariant out.status == Handled && window == buf[begin..begin + remaining]
      invariant goal.tail == RestOf(sv, fuel, bufferSize, room, window).tail
      invariant goal.delivery == Before(out.messages, RestOf(sv, fuel, bufferSize, room, window).delivery)
      decreases remaining
    {
      assert remaining <= bufferSize && remaining <= transferred + lastRemaining;  // the source's own assertion
      FirstPacket(sv, fuel, bufferSize, room, window);
      if remaining < BILI_HEADER {
        // the remaining bytes cannot form a header
        KeepRest(buf, begin, remaining, window);
        return remaining, 0, out;
      }
      var length, headerLength := ReadHeader(buf, begin, window);
      if headerLength != BILI_HEADER {
        return 0, 0, Delivery(out.messages, Thrown);
      }
      if length > bufferSize {
        assert length > transferred;  // the source's own assertion
        return 0, length - remaining, out;  // too big: dispose of it
      }
      if length > remaining {
        KeepRest(buf, begin, remaining, window);
        return remaining, 0, out;  // need more data
      }
      ghost var p, rest := window[..length], window[length..];
      SliceOfSlice(buf[..], begin, begin + remaining, 0, length);
      ghost var before := buf[..];
      var one := HandlePacket(sv, fuel, buf, begin, p, room);
      if one.status == Thrown {
        return 0, 0, Delivery(out.messages + one.messages, Thrown);
      }
      BeforeTwice(out.messages, one.messages, RestOf(sv, fuel, bufferSize, room, rest).delivery);
      out := Delivery(out.messages + one.messages, Handled);
      RestInPlace(before, buf[..], begin, window, length);
      remaining := remaining - length;
      begin := begin + length;
      window := rest;
    }
    FirstPacket(sv, fuel, bufferSize, room, window);
    return 0, 0, out;
  }

  /** One read: `transferred` bytes have just been written behind the carried ones.  The
      messages and the new carried state are those of the reference decoder. */
  method HandleBuffer(sv: Services, fuel: nat, buf: array<byte>, transferred: nat, bufferSize: nat,
                      lastRemaining: nat, skipping: nat, room: int32, ghost tail: Tail, ghost chunk: seq<byte>)
    returns (offset: nat, skip: nat, out: Delivery)
    requires bufferSize < buf.Length && lastRemaining + transferred <= bufferSize
    requires skipping > 0 ==> lastRemaining == 0
    requires tail == Carried(buf[..], lastRemaining, skipping)
    requires chunk == buf[lastRemaining..lastRemaining + transferred]
    requires Deliver(sv, fuel, room, Resume(Bili, bufferSize, tail, chunk)).status != Undefined
    modifies buf
    ensures out == Deliver(sv, fuel, room, Resume(Bili, bufferSize, tail, chunk))
    ensures offset <= bufferSize && (skip > 0 ==> offset == 0)
    ensures out.status == Handled ==>
      Carried(buf[..], offset, skip) == Resume(Bili, bufferSize, tail, chunk).tail
    decreases fuel, 2
  {
    if skipping > transferred {
      assert DeliverFrames(sv, fuel, room, []) == Delivery([], Handled);
      return 0, skipping - transferred, Delivery([], Handled);
    }
    var remaining := transferred - skipping + lastRemaining;
    ghost var window := buf[skipping..skipping + remaining];
    assert Resume(Bili, bufferSize, tail, chunk) == Decode(Bili, bufferSize, window) by {
      if skipping > 0 {
        assert chunk[skipping..] == window;
      } else {
        assert buf[..][..lastRemaining] + chunk == window;
      }
    }
    offset, skip, out :=
      ParseWindow(sv, fuel, buf, transferred, bufferSize, lastRemaining, skipping, remaining, room, window);
  }

  /** What every connection promises about the bytes it will be sent: the reference
      decoder reaches no length below the header's own. */
  ghost predicate WellDefined(sv: Services, fuel: nat, limit: nat, room: int32, stream: seq<byte>) {
    DeliverStream(sv, fuel, limit, room, stream).status != Undefined
  }

  lemma WellDefinedPrefix(sv: Services, fuel: nat, limit: nat, room: int32, s: seq<byte>, t: seq<byte>)
    requires WellDefined(sv, fuel, limit, room, s + t)
    ensures WellDefined(sv, fuel, limit, room, s)
  {
    DeliverExtends(sv, fuel, limit, room, s, t);
  }

  /** How an async_receive completes, and the bytes it brought. */
  datatype ReadOutcome = Arrived(chunk: seq<byte>) | Aborted(chunk: seq<byte>) | Failed(chunk: seq<byte>)

  /** bilibili_connection_plain_tcp: owns the buffer (one byte longer than the read size)
      and the carried state. */
  class PlainTcpConnection {
    const services: Services
    const fuel: nat
    const room: int32
    const readBuffer: array<byte>
    const readBufferSize: nat
    var offset: nat
    var skippingBytes: nat
    var closed: bool
    var failures: nat            // calls of on_room_failed
    var delivered: seq<Message>
    ghost var stream: seq<byte>  // every byte read so far
    ghost var malformed: bool    // the stream made handle_buffer throw

    /** The connection is where the whole-stream decoder would be. */
    ghost predicate Valid()
      reads this, readBuffer
    {
      && BILI_HEADER <= readBufferSize && readBuffer.Length == readBufferSize + 1
      && offset < readBufferSize && (skippingBytes > 0 ==> offset == 0)
      && failures == (if closed then 1 else 0) && (malformed ==> closed)
      && var whole := DeliverStream(services, fuel, readBufferSize, room, stream);
      && delivered == whole.messages
      && whole.status == (if malformed then Thrown else Handled)
      && (!malformed ==> Carried(readBuffer[..], offset, skippingBytes) == Decode(Bili, readBufferSize, stream).tail)
    }

    constructor (sv: Services, fuel: nat, room: int32, size: nat)
      requires BILI_HEADER <= size
      ensures Valid() && fresh(readBuffer) && !closed && !malformed && stream == [] && delivered == []
      ensures services == sv && this.fuel == fuel && this.room == room && readBufferSize == size
    {
      services, this.fuel, this.room := sv, fuel, room;
      readBuffer, readBufferSize := new byte[size + 1], size;
      offset, skippingBytes, closed, failures, delivered, stream, malformed := 0, 0, false, 0, [], [], false;
      new;
      assert DeliverFrames(sv, fuel, room, []) == Delivery([], Handled);
    }

    /** close(true): the failure is reported once. */
    method Close()
      modifies `closed, `failures
      ensures closed && failures == old(failures) + (if old(closed) then 0 else 1)
    {
      if !closed {
        closed := true;
        failures := failures + 1;
      }
    }

    /** async_receive has completed.  An aborted read changes nothing; a failed one closes
        the connection, and what it brought is parsed nevertheless. */
    method OnReceive(outcome: ReadOutcome)
      requires Valid() && !closed && |outcome.chunk| <= readBufferSize - offset
      requires !outcome.Aborted? ==> WellDefined(services, fuel, readBufferSize, room, stream + outcome.chunk)
      modifies this, readBuffer
      ensures Valid()
      ensures outcome.Aborted? ==> stream == old(stream) && delivered == old(delivered) && !closed
      ensures !outcome.Aborted? ==> stream == old(stream) + outcome.chunk && (closed <==> outcome.Failed? || malformed)
    {
      if outcome.Aborted? {
        return;
      }
      if outcome.Failed? {
        Close();
      }
      HandleChunk(outcome.chunk);
    }

    /** Part of the free window has been filled; parse it. */
    method HandleChunk(chunk: seq<byte>)
      requires Valid() && !malformed && |chunk| <= readBufferSize - offset
      requires WellDefined(services, fuel, readBufferSize, room, stream + chunk)
      modifies this, readBuffer
      ensures Valid() && stream == old(stream) + chunk && (closed <==> old(closed) || malformed)
    {
      hide Decode, Deliver, DeliverFrames, Resume;
      ghost var tail := Carried(readBuffer[..], offset, skippingBytes);
      CopyIn(readBuffer, offset, chunk);
      assert readBuffer[..][..offset] == old(readBuffer[..][..offset]);
      assert readBuffer[offset..offset + |chunk|] == chunk;
      DeliverExtends(services, fuel, readBufferSize, room, stream, chunk);
      ChunkLaw(Bili, readBufferSize, stream, chunk);
      ResidualBounds(Bili, readBufferSize, stream + chunk);
      var newOffset, newSkip, out := HandleBuffer(services, fuel, readBuffer, |chunk|, readBufferSize, offset,
                                                  skippingBytes, room, tail, chunk);
      delivered := delivered + out.messages;
      stream := stream + chunk;
      if out.status == Thrown {
        malformed := true;
        Close();
        return;
      }
      offset, skippingBytes := newOffset, newSkip;
    }

    /** Reads a stream to its end or until the connection closes.  The network decides
        the size of every read; the free window is never empty. */
    method ReadAll(wire: seq<byte>)
      requires Valid() && stream == [] && !closed
      requires WellDefined(services, fuel, readBufferSize, room, wire)
      modifies this, readBuffer
      ensures Valid()
      ensures var whole := DeliverStream(services, fuel, readBufferSize, room, wire);
              delivered == whole.messages && (closed <==> whole.status == Thrown)
    {
      hide DeliverStream;
      var at := 0;
      while at < |wire| && !closed
        invariant Valid() && at <= |wire| && stream == wire[..at] && closed == malformed
        decreases |wire| - at
      {
        var size :| 1 <= size <= readBufferSize - offset && at + size <= |wire|;
        assert wire[..at] + wire[at..at + size] == wire[..at + size];
        assert wire == wire[..at + size] + wire[at + size..];
        WellDefinedPrefix(services, fuel, readBufferSize, room, wire[..at + size], wire[at + size..]);
        OnReceive(Arrived(wire[at..at + size]));
        at := at + size;
      }
      assert !closed ==> wire[..at] == wire;
      assert wire == wire[..at] + wire[at..];
      DeliverExtends(services, fuel, readBufferSize, room, wire[..at], wire[at..]);
    }
  }
}
