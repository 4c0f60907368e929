/** The control protocol between the supervisor and its workers: the packet generators of
    both sides (src/supervisor/simple_worker_proto_generator.cpp,
    src/worker/simple_worker_proto_generator.cpp) and what the receivers read back. */
module Wire {
  import opened Bytes
  import opened Framing

  // The codes are truncated to one byte in the source: 0x10000001 becomes 1.
  const WORKER_READY_CODE: byte := 1
  const ROOM_FAILED_CODE: byte := 2
  const WORKER_DATA_CODE: byte := 0
  const ASSIGN_ROOM_CODE: byte := 1
  const UNASSIGN_ROOM_CODE: byte := 2

  const ROUTING_KEY_MAX_SIZE: nat := 32
  const AUTH_CODE_SIZE: nat := 32
  const BASIC_PAYLOAD_LENGTH: nat := 5       // op code and room id
  const READY_PAYLOAD_LENGTH: nat := 37      // and the authentication code
  const DATA_PAYLOAD_HEADER_LENGTH: nat := 41  // and checksum and routing key

  // ----- the wire format -----

  /** What the supervisor asks of a worker. */
  datatype Call = Open(room: int32) | Close(room: int32)

  /** What the supervisor reads in a worker's message. */
  datatype Incoming =
    | TooShort
    | Ready(maxRooms: int32, auth: seq<byte>)  // auth is empty when the message is too short for one
    | Failed(room: int32)
    | ShortData
    | Data(room: int32, checksum: int32, routingKey: seq<byte>, body: seq<byte>)
    | Unknown

  datatype BorrowedMessage = BorrowedMessage(crc32: int32, routingKey: seq<byte>, body: seq<byte>) {
    predicate Valid() {
      |routingKey| == ROUTING_KEY_MAX_SIZE && DATA_PAYLOAD_HEADER_LENGTH + |body| < 0x8000_0000
    }
  }

  function Framed(payload: seq<byte>): seq<byte>
    requires |payload| < 0x8000_0000
  {
    NetworkBytes(|payload|) + payload
  }

  function BasicPayload(code: byte, place: int32): seq<byte> {
    [code] + Network32(place)
  }

  function CallPayload(call: Call): seq<byte> {
    match call
    case Open(room) => BasicPayload(ASSIGN_ROOM_CODE, room)
    case Close(room) => BasicPayload(UNASSIGN_ROOM_CODE, room)
  }

  function Padded(code: seq<byte>): (s: seq<byte>)
    requires |code| <= AUTH_CODE_SIZE
    ensures |s| == AUTH_CODE_SIZE
  {
    code + Zeros(AUTH_CODE_SIZE - |code|)
  }

  function ReadyPayload(maxRooms: int32, auth: seq<byte>): seq<byte>
    requires |auth| <= AUTH_CODE_SIZE
  {
    BasicPayload(WORKER_READY_CODE, maxRooms) + Padded(auth)
  }

  function DataPayload(room: int32, msg: BorrowedMessage): seq<byte>
    requires msg.Valid()
  {
    BasicPayload(WORKER_DATA_CODE, room) + Network32(msg.crc32) + msg.routingKey + msg.body
  }

  // ----- the receivers -----

  /** The bytes before the first NUL: what strnlen measures. */
  function Text(s: seq<byte>): seq<byte> {
    if s == [] || s[0] == 0 then [] else [s[0]] + Text(s[1..])
  }

  /** `0 == strncmp(a, b, n)`. */
  predicate SamePrefix(a: seq<byte>, b: seq<byte>, n: nat)
    requires n <= |a| && n <= |b|
  {
    n == 0 || (a[0] == b[0] && (a[0] == 0 || SamePrefix(a[1..], b[1..], n - 1)))
  }

  /** supervisor_session::on_supervisor_message: the calls a message leads to. */
  function CallsOf(msg: seq<byte>): seq<Call> {
    if |msg| < BASIC_PAYLOAD_LENGTH then []
    else
      var room := ToInt32(ByteSwap32(LoadHost32(msg[1..5])));
      if msg[0] == ASSIGN_ROOM_CODE then [Open(room)]
      else if msg[0] == UNASSIGN_ROOM_CODE then [Close(room)]
      else []
  }

  /** The fields scheduler_session::handle_buffer takes from a payload.  The checksum is
      read without a byte-order conversion. */
  function ReadPayload(p: seq<byte>): Incoming {
    if |p| < BASIC_PAYLOAD_LENGTH then TooShort
    else
      var place := ToInt32(ByteSwap32(LoadHost32(p[1..5])));
      if p[0] == WORKER_READY_CODE then
        Ready(place, if |p| < READY_PAYLOAD_LENGTH then [] else p[5..37])
      else if p[0] == ROOM_FAILED_CODE then Failed(place)
      else if p[0] == WORKER_DATA_CODE then
        if |p| < DATA_PAYLOAD_HEADER_LENGTH then ShortData
        else Data(place, ToInt32(LoadHost32(p[5..9])), Text(p[9..41]), p[41..])
      else Unknown
  }

  lemma ReadyAuthSize(p: seq<byte>)
    ensures ReadPayload(p).Ready? ==> |ReadPayload(p).auth| in {0, AUTH_CODE_SIZE}
  {
    hide ByteSwap32, LoadHost32, Text;
  }

  // ----- round trips -----

  lemma BasicRead(code: byte, place: int32, rest: seq<byte>)
    ensures var p := BasicPayload(code, place) + rest;
            p[0] == code && p[1..5] == Network32(place) && p[5..] == rest
            && ToInt32(ByteSwap32(LoadHost32(p[1..5]))) == place
  {
    NetworkRoundTrip(place);
    var p := BasicPayload(code, place) + rest;
    assert p[1..5] == Network32(place);
  }

  lemma CallRoundTrip(call: Call)
    ensures CallsOf(CallPayload(call)) == [call]
  {
    var code := if call.Open? then ASSIGN_ROOM_CODE else UNASSIGN_ROOM_CODE;
    BasicRead(code, call.room, []);
    assert CallPayload(call) == BasicPayload(code, call.room) + [];
  }

  lemma ReadyRoundTrip(maxRooms: int32, auth: seq<byte>)
    requires |auth| <= AUTH_CODE_SIZE
    ensures ReadPayload(ReadyPayload(maxRooms, auth)) == Ready(maxRooms, Padded(auth))
  {
    BasicRead(WORKER_READY_CODE, maxRooms, Padded(auth));
    var p := ReadyPayload(maxRooms, auth);
    assert p[5..37] == p[5..];
  }

  lemma FailedRoundTrip(room: int32)
    ensures ReadPayload(BasicPayload(ROOM_FAILED_CODE, room)) == Failed(room)
  {
    BasicRead(ROOM_FAILED_CODE, room, []);
    assert BasicPayload(ROOM_FAILED_CODE, room) == BasicPayload(ROOM_FAILED_CODE, room) + [];
  }

  /** Room, key and body arrive as sent; the checksum arrives byte-reversed. */
  lemma DataRoundTrip(room: int32, msg: BorrowedMessage)
    requires msg.Valid()
    ensures ReadPayload(DataPayload(room, msg))
         == Data(room, Unconverted(msg.crc32), Text(msg.routingKey), msg.body)
  {
    hide Text, LoadHost32, ByteSwap32, Network32, ToInt32;
    var crc := Network32(msg.crc32);
    var rest := crc + msg.routingKey + msg.body;
    var p := DataPayload(room, msg);
    assert p == BasicPayload(WORKER_DATA_CODE, room) + rest;
    BasicRead(WORKER_DATA_CODE, room, rest);
    assert p[5..9] == rest[..4] == crc;
    assert p[9..41] == rest[4..36] == msg.routingKey;
    assert p[41..] == rest[36..] == msg.body;
  }

  /** Comparing two fixed-size fields as C strings is comparing their texts. */
  lemma {:induction false} SamePrefixIsSameText(a: seq<byte>, b: seq<byte>, n: nat)
    requires n <= |a| && n <= |b|
    ensures SamePrefix(a, b, n) <==> Text(a[..n]) == Text(b[..n])
  {
    if n > 0 {
      assert a[..n][1..] == a[1..][..n - 1] && b[..n][1..] == b[1..][..n - 1];
      SamePrefixIsSameText(a[1..], b[1..], n - 1);
      if a[0] != 0 && b[0] != 0 {
        assert Text(a[..n]) == [a[0]] + Text(a[1..][..n - 1]);
        assert Text(b[..n]) == [b[0]] + Text(b[1..][..n - 1]);
        assert Text(a[..n])[1..] == Text(a[1..][..n - 1]);
        assert Text(b[..n])[1..] == Text(b[1..][..n - 1]);
      }
    }
  }

  lemma TextOfPadded(code: seq<byte>, zeros: nat)
    requires 0 !in code
    ensures Text(code + Zeros(zeros)) == code
    decreases |code|
  {
    if code != [] {
      assert (code + Zeros(zeros))[1..] == code[1..] + Zeros(zeros);
      TextOfPadded(code[1..], zeros);
    }
  }

  /** The supervisor accepts a ready message exactly when the two codes are the same. */
  lemma AuthenticationExact(own: seq<byte>, sent: seq<byte>)
    requires |own| <= AUTH_CODE_SIZE && |sent| <= AUTH_CODE_SIZE && 0 !in own && 0 !in sent
    ensures SamePrefix(Padded(own), Padded(sent), AUTH_CODE_SIZE) <==> own == sent
  {
    SamePrefixIsSameText(Padded(own), Padded(sent), AUTH_CODE_SIZE);
    assert Padded(own)[..AUTH_CODE_SIZE] == Padded(own) && Padded(sent)[..AUTH_CODE_SIZE] == Padded(sent);
    TextOfPadded(own, AUTH_CODE_SIZE - |own|);
    TextOfPadded(sent, AUTH_CODE_SIZE - |sent|);
  }

  // ----- the messages, byte by byte -----

  /** A worker opens a room for a message of at least five bytes that begins with 1, closes
      one if it begins with 2, the room following in network order, and ignores all others. */
  lemma CallsExactly(msg: seq<byte>)
    ensures |msg| < 5 ==> CallsOf(msg) == []
    ensures |msg| >= 5 ==>
      var room := ToInt32(BigEndian32(msg[1..5]));
      CallsOf(msg) == if msg[0] == 1 then [Open(room)] else if msg[0] == 2 then [Close(room)] else []
  {
    hide BigEndian32, ByteSwap32, LoadHost32;
    if |msg| >= 5 {
      NetworkRead(msg[1..5]);
    }
  }

  /** What the supervisor reads: one operation byte, four bytes of room or limit in network
      order, and what the operation adds to them. */
  lemma PayloadExactly(p: seq<byte>)
    ensures |p| < 5 <==> ReadPayload(p).TooShort?
    ensures |p| >= 5 ==>
      var place := ToInt32(BigEndian32(p[1..5]));
      && (p[0] == 0 && |p| < 41 ==> ReadPayload(p) == ShortData)
      && (p[0] == 0 && |p| >= 41 ==>
            ReadPayload(p) == Data(place, ToInt32(BigEndian32(Reverse4(p[5..9]))), Text(p[9..41]), p[41..]))
      && (p[0] == 1 ==> ReadPayload(p) == Ready(place, if |p| < 37 then [] else p[5..37]))
      && (p[0] == 2 ==> ReadPayload(p) == Failed(place))
      && (p[0] > 2 ==> ReadPayload(p) == Unknown)
  {
    hide ByteSwap32, Text;
    if |p| >= 5 {
      NetworkRead(p[1..5]);
      if |p| >= 41 {
        ReversedLoad(p[5..9]);
      }
    }
  }

  lemma ReversedLoad(s: seq<byte>)
    requires |s| == 4
    ensures LoadHost32(s) == BigEndian32(Reverse4(s))
  {
  }

  /** The text of a field is what stands before its first NUL, or all of it. */
  lemma {:induction false} TextExactly(s: seq<byte>)
    ensures Text(s) <= s && 0 !in Text(s)
    ensures |Text(s)| < |s| ==> s[|Text(s)|] == 0
  {
    if s != [] && s[0] != 0 {
      TextExactly(s[1..]);
    }
  }

  // The packets as they go out: four bytes of length, the operation, and the fields.

  lemma CallPacketBytes(call: Call)
    ensures Framed(CallPayload(call)) == [0, 0, 0, 5] + [if call.Open? then 1 else 2] + Network32(call.room)
  {
    SmallNetworkBytes(5);
    hide NetworkBytes, Network32;
  }

  lemma FailedPacketBytes(room: int32)
    ensures Framed(BasicPayload(ROOM_FAILED_CODE, room)) == [0, 0, 0, 5] + [2] + Network32(room)
  {
    SmallNetworkBytes(5);
    hide NetworkBytes, Network32;
  }

  lemma ReadyPacketBytes(maxRooms: int32, auth: seq<byte>)
    requires |auth| <= 32
    ensures Framed(ReadyPayload(maxRooms, auth))
         == [0, 0, 0, 37] + [1] + Network32(maxRooms) + auth + Zeros(32 - |auth|)
  {
    SmallNetworkBytes(37);
    hide NetworkBytes, Network32, Zeros;
  }

  lemma DataPacketBytes(room: int32, msg: BorrowedMessage)
    requires msg.Valid()
    ensures |msg.routingKey| == 32
    ensures Framed(DataPayload(room, msg))
         == NetworkBytes(41 + |msg.body|) + [0] + Network32(room) + Network32(msg.crc32) + msg.routingKey + msg.body
  {
    hide NetworkBytes, Network32;
  }

  lemma SmallNetworkBytes(x: byte)
    ensures NetworkBytes(x) == [0, 0, 0, x]
  {
    StoreLoad(Reverse4(StoreHost32(x)));
  }

  /** Every generated packet is one frame of the simple protocol. */
  lemma FramedIsPacket(payload: seq<byte>)
    requires |payload| < 0x8000_0000
    ensures IsPacket(Simple, Framed(payload)) && Framed(payload)[SIMPLE_HEADER..] == payload
  {
    NetworkBytesRead(|payload|);
    assert Framed(payload)[..4] == NetworkBytes(|payload|);
  }

  // ----- the generators -----

  method PutNetwork(packet: array<byte>, at: nat, x: uint32)
    requires at + 4 <= packet.Length
    modifies packet
    ensures packet[..] == old(packet[..at]) + NetworkBytes(x) + old(packet[at + 4..])
  {
    CopyIn(packet, at, StoreHost32(ByteSwap32(x)));
  }

  /** generate_room_basic_packet and generate_assign_unassign_base_packet: the op code is
      left for the caller. */
  method GenerateBasicPacket(place: int32, payloadSize: nat) returns (packet: array<byte>)
    requires BASIC_PAYLOAD_LENGTH <= payloadSize < 0x8000_0000
    ensures fresh(packet) && packet.Length == SIMPLE_HEADER + payloadSize
    ensures packet[..4] == NetworkBytes(payloadSize) && packet[5..9] == Network32(place)
  {
    packet := new byte[SIMPLE_HEADER + payloadSize];
    PutNetwork(packet, 0, payloadSize);
    ghost var first := packet[..];
    assert first[..4] == NetworkBytes(payloadSize);
    PutNetwork(packet, SIMPLE_HEADER + 1, ToUint32(place));
    assert packet[..][..5] == first[..5];
    assert packet[..4] == packet[..][..5][..4] == first[..5][..4] == first[..4];
  }

  lemma BasicPacketIs(packet: seq<byte>, code: byte, place: int32)
    requires |packet| == SIMPLE_HEADER + BASIC_PAYLOAD_LENGTH
    requires packet[..4] == NetworkBytes(5) && packet[4] == code && packet[5..9] == Network32(place)
    ensures packet == Framed(BasicPayload(code, place))
  {
    assert packet == packet[..4] + [packet[4]] + packet[5..9];
  }

  method GenerateCallPacket(call: Call) returns (packet: array<byte>)
    ensures fresh(packet) && packet[..] == Framed(CallPayload(call))
  {
    packet := GenerateBasicPacket(call.room, BASIC_PAYLOAD_LENGTH);
    ghost var base := packet[..];
    packet[SIMPLE_HEADER] := if call.Open? then ASSIGN_ROOM_CODE else UNASSIGN_ROOM_CODE;
    assert packet[..4] == base[..4] && packet[5..9] == base[5..9];
    BasicPacketIs(packet[..], packet[4], call.room);
  }

  method GenerateRoomFailedPacket(room: int32) returns (packet: array<byte>)
    ensures fresh(packet) && packet[..] == Framed(BasicPayload(ROOM_FAILED_CODE, room))
  {
    packet := GenerateBasicPacket(room, BASIC_PAYLOAD_LENGTH);
    ghost var base := packet[..];
    packet[SIMPLE_HEADER] := ROOM_FAILED_CODE;
    assert packet[..4] == base[..4] && packet[5..9] == base[5..9];
    BasicPacketIs(packet[..], ROOM_FAILED_CODE, room);
  }

  method GenerateWorkerReadyPacket(maxRooms: int32, auth: seq<byte>) returns (packet: array<byte>)
    requires |auth| <= AUTH_CODE_SIZE
    ensures fresh(packet) && packet[..] == Framed(ReadyPayload(maxRooms, auth))
  {
    packet := GenerateBasicPacket(maxRooms, READY_PAYLOAD_LENGTH);
    ghost var base := packet[..];
    packet[SIMPLE_HEADER] := WORKER_READY_CODE;
    ghost var coded := packet[..];
    assert coded[..4] == base[..4] && coded[5..9] == base[5..9];
    CopyIn(packet, 9, Zeros(AUTH_CODE_SIZE));
    assert packet[..] == coded[..9] + Zeros(AUTH_CODE_SIZE);
    CopyIn(packet, 9, auth);
    assert packet[..] == coded[..9] + auth + Zeros(AUTH_CODE_SIZE)[|auth|..];
    ReadyPacketIs(coded, maxRooms, auth);
  }

  lemma ReadyPacketIs(packet: seq<byte>, maxRooms: int32, auth: seq<byte>)
    requires |packet| == SIMPLE_HEADER + READY_PAYLOAD_LENGTH && |auth| <= AUTH_CODE_SIZE
    requires packet[..4] == NetworkBytes(READY_PAYLOAD_LENGTH) && packet[4] == WORKER_READY_CODE
    requires packet[5..9] == Network32(maxRooms)
    ensures packet[..9] + auth + Zeros(AUTH_CODE_SIZE)[|auth|..] == Framed(ReadyPayload(maxRooms, auth))
  {
    assert packet[..9] == packet[..4] + [packet[4]] + packet[5..9];
    assert auth + Zeros(AUTH_CODE_SIZE)[|auth|..] == Padded(auth);
  }

  /** The fields are written through an advancing pointer. */
  method GenerateWorkerDataPacket(room: int32, msg: BorrowedMessage) returns (packet: array<byte>)
    requires msg.Valid()
    ensures fresh(packet) && packet[..] == Framed(DataPayload(room, msg))
  {
    var payloadLength := DATA_PAYLOAD_HEADER_LENGTH + |msg.body|;
    packet := new byte[SIMPLE_HEADER + payloadLength];
    ghost var done: seq<byte> := [];
    var at := Append(packet, 0, NetworkBytes(payloadLength), done);
    done := done + NetworkBytes(payloadLength);
    at := Append(packet, at, [WORKER_DATA_CODE], done);
    done := done + [WORKER_DATA_CODE];
    at := Append(packet, at, Network32(room), done);
    done := done + Network32(room);
    at := Append(packet, at, Network32(msg.crc32), done);
    done := done + Network32(msg.crc32);
    at := Append(packet, at, msg.routingKey, done);
    done := done + msg.routingKey;
    at := Append(packet, at, msg.body, done);
    done := done + msg.body;
    assert packet[..] == packet[..at] == done;
    DataPacketLayout(room, msg);
  }

  /** Writes one field at the pointer and advances it. */
  method Append(packet: array<byte>, at: nat, field: seq<byte>, ghost done: seq<byte>) returns (next: nat)
    requires at + |field| <= packet.Length && packet[..at] == done
    modifies packet
    ensures next == at + |field| && packet[..next] == done + field
  {
    CopyIn(packet, at, field);
    next := at + |field|;
    assert packet[..next] == packet[..][..next];
  }

  lemma DataPacketLayout(room: int32, msg: BorrowedMessage)
    requires msg.Valid()
    ensures Framed(DataPayload(room, msg))
         == [] + NetworkBytes(DATA_PAYLOAD_HEADER_LENGTH + |msg.body|) + [WORKER_DATA_CODE] + Network32(room)
            + Network32(msg.crc32) + msg.routingKey + msg.body
  {
  }

  // ----- the worker's end -----

  class SupervisorSession {
    var calls: seq<Call>  // calls made to the open and close handlers, in order

    constructor ()
      ensures calls == []
    {
      calls := [];
    }

    method OnSupervisorMessage(msg: seq<byte>)
      modifies this
      ensures calls == old(calls) + CallsOf(msg)
    {
      if |msg| < BASIC_PAYLOAD_LENGTH {
        return;
      }
      var opCode := msg[0];
      var room := ToInt32(ByteSwap32(LoadHost32(msg[1..5])));
      if opCode == ASSIGN_ROOM_CODE {
        calls := calls + [Open(room)];
      } else if opCode == UNASSIGN_ROOM_CODE {
        calls := calls + [Close(room)];
      }
    }
  }
}
