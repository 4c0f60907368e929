/** Bytes, the 32-bit integers the program keeps in them, and the byte-order helpers
    of the socket library.  The host is little-endian, so loading an integer through a
    pointer yields the low byte first and network_to_host_long reverses the bytes. */
module Bytes {

  type byte = x: int | 0 <= x < 0x100
  type uint32 = x: int | 0 <= x < 0x1_0000_0000
  type int32 = x: int | -0x8000_0000 <= x < 0x8000_0000

  /** The modulus of size_t arithmetic on the 64-bit host. */
  const SIZE_MODULUS: int := 0x1_0000_0000_0000_0000

  function Word(b0: int, b1: int, b2: int, b3: int): int {
    b0 + 0x100 * b1 + 0x1_0000 * b2 + 0x100_0000 * b3
  }

  /** `*reinterpret_cast<uint32_t*>(p)`. */
  function LoadHost32(s: seq<byte>): uint32
    requires |s| == 4
  {
    Word(s[0], s[1], s[2], s[3])
  }

  /** The bytes `*reinterpret_cast<uint32_t*>(p) = x` leaves at p. */
  function StoreHost32(x: uint32): (s: seq<byte>)
    ensures |s| == 4
  {
    [x % 0x100, x / 0x100 % 0x100, x / 0x100 / 0x100 % 0x100, x / 0x100 / 0x100 / 0x100]
  }

  function Reverse4(s: seq<byte>): (r: seq<byte>)
    requires |s| == 4
    ensures |r| == 4
  {
    [s[3], s[2], s[1], s[0]]
  }

  /** host_to_network_long and network_to_host_long: one function on this host. */
  function ByteSwap32(x: uint32): uint32 {
    LoadHost32(Reverse4(StoreHost32(x)))
  }

  /** Four bytes read as a big-endian integer, the meaning the wire format gives them. */
  function BigEndian32(s: seq<byte>): uint32
    requires |s| == 4
  {
    Word(s[3], s[2], s[1], s[0])
  }

  function BigEndian16(s: seq<byte>): nat
    requires |s| == 2
  {
    Word(s[1], s[0], 0, 0)
  }

  /** Conversions between int and uint32_t: two's complement. */
  function ToInt32(x: uint32): int32 {
    if x < 0x8000_0000 then x else x - 0x1_0000_0000
  }

  function ToUint32(x: int32): uint32 {
    if x < 0 then x + 0x1_0000_0000 else x
  }

  /** The four bytes the generators store for an integer in network order. */
  function NetworkBytes(x: uint32): (s: seq<byte>)
    ensures |s| == 4
  {
    StoreHost32(ByteSwap32(x))
  }

  function Network32(x: int32): (s: seq<byte>)
    ensures |s| == 4
  {
    NetworkBytes(ToUint32(x))
  }

  lemma Digit(low: int, high: int)
    requires 0 <= low < 0x100
    ensures (low + 0x100 * high) % 0x100 == low && (low + 0x100 * high) / 0x100 == high
  {
  }

  /** The digits of a word, lowest first. */
  lemma DigitsOf(b0: byte, b1: byte, b2: byte, b3: byte)
    ensures var x := Word(b0, b1, b2, b3);
            && x % 0x100 == b0 && x / 0x100 % 0x100 == b1
            && x / 0x100 / 0x100 % 0x100 == b2 && x / 0x100 / 0x100 / 0x100 == b3
  {
    Digit(b0, Word(b1, b2, b3, 0));
    Digit(b1, Word(b2, b3, 0, 0));
    Digit(b2, b3);
  }

  lemma StoreLoad(s: seq<byte>)
    requires |s| == 4
    ensures StoreHost32(LoadHost32(s)) == s
  {
    hide Word;
    DigitsOf(s[0], s[1], s[2], s[3]);
  }

  lemma LoadStore(x: uint32)
    ensures LoadHost32(StoreHost32(x)) == x
  {
    var a := x / 0x100;
    var b := a / 0x100;
    var c := b / 0x100;
    assert x == 0x100 * a + x % 0x100 && a == 0x100 * b + a % 0x100 && b == 0x100 * c + b % 0x100;
  }

  /** Reading a wire integer as the receivers do yields its big-endian value. */
  lemma NetworkRead(s: seq<byte>)
    requires |s| == 4
    ensures ByteSwap32(LoadHost32(s)) == BigEndian32(s)
  {
    StoreLoad(s);
  }

  lemma SwapTwice(x: uint32)
    ensures ByteSwap32(ByteSwap32(x)) == x
  {
    StoreLoad(Reverse4(StoreHost32(x)));
    LoadStore(x);
    assert Reverse4(Reverse4(StoreHost32(x))) == StoreHost32(x);
  }

  lemma NetworkBytesRead(x: uint32)
    ensures BigEndian32(NetworkBytes(x)) == x
  {
    NetworkRead(NetworkBytes(x));
    LoadStore(ByteSwap32(x));
    SwapTwice(x);
  }

  /** A 32-bit integer written by a generator and read by a receiver is unchanged. */
  lemma NetworkRoundTrip(x: int32)
    ensures ToInt32(BigEndian32(Network32(x))) == x
    ensures ToInt32(ByteSwap32(LoadHost32(Network32(x)))) == x
  {
    NetworkRead(Network32(x));
    LoadStore(ByteSwap32(ToUint32(x)));
    SwapTwice(ToUint32(x));
  }

  /** The value of four bytes in network order, highest first. */
  lemma NetworkOrder(s: seq<byte>)
    requires |s| == 4
    ensures BigEndian32(s) == (((s[0] as int) * 256 + s[1]) * 256 + s[2]) * 256 + s[3]
    ensures BigEndian16(s[2..]) == (s[2] as int) * 256 + s[3]
  {
    assert s[2..] == [s[2], s[3]];
  }

  /** The bytes a generator writes for an integer: two's complement, highest byte first. */
  lemma NetworkDigits(x: int32)
    ensures var s, u := Network32(x), if x < 0 then x + 4294967296 else x;
            u == (((s[0] as int) * 256 + s[1]) * 256 + s[2]) * 256 + s[3]
  {
    NetworkBytesRead(ToUint32(x));
    NetworkOrder(Network32(x));
  }

  /** What a reader that forgets to convert sees of a wire integer. */
  function Unconverted(x: int32): int32 {
    ToInt32(LoadHost32(Network32(x)))
  }

  lemma SwapInjective(x: uint32, y: uint32)
    requires ByteSwap32(x) == ByteSwap32(y)
    ensures x == y
  {
    SwapTwice(x);
    SwapTwice(y);
  }

  /** A reader that forgets to convert sees the integer whose bytes are the reversed ones. */
  lemma UnconvertedIsReversed(x: int32)
    ensures Network32(Unconverted(x)) == Reverse4(Network32(x))
    ensures var s := Network32(x); Reverse4(s) == [s[3], s[2], s[1], s[0]]
  {
    var s := Network32(x);
    StoreLoad(s);
    StoreLoad(Reverse4(s));
    assert ToUint32(Unconverted(x)) == LoadHost32(s);
    assert StoreHost32(LoadHost32(s)) == s;
  }

  /** Byte reversal is an injection that fixes zero and maps nothing else to it. */
  lemma UnconvertedInjective(x: int32, y: int32)
    requires Unconverted(x) == Unconverted(y)
    ensures x == y
  {
    LoadStore(ByteSwap32(ToUint32(x)));
    LoadStore(ByteSwap32(ToUint32(y)));
    SwapInjective(ToUint32(x), ToUint32(y));
  }

  lemma UnconvertedZero(x: int32)
    ensures Unconverted(x) == 0 <==> x == 0
  {
    assert Unconverted(0) == 0;
    if Unconverted(x) == 0 {
      UnconvertedInjective(x, 0);
    }
  }

  lemma SliceOfSlice<T>(s: seq<T>, from: nat, to: nat, lo: nat, hi: nat)
    requires from <= to <= |s| && lo <= hi <= to - from
    ensures s[from..to][lo..hi] == s[from + lo..from + hi]
  {
    var a, b := s[from..to][lo..hi], s[from + lo..from + hi];
    assert |a| == |b| && forall j :: 0 <= j < |a| ==> a[j] == b[j];
  }

  function Zeros(n: nat): (s: seq<byte>)
    ensures |s| == n && forall i :: 0 <= i < n ==> s[i] == 0
  {
    seq(n, _ => 0)
  }

  function Flatten(parts: seq<seq<byte>>): seq<byte> {
    if parts == [] then [] else parts[0] + Flatten(parts[1..])
  }

  lemma FlattenAppend(a: seq<seq<byte>>, b: seq<seq<byte>>)
    ensures Flatten(a + b) == Flatten(a) + Flatten(b)
  {
    if a == [] {
      assert a + b == b;
    } else {
      assert (a + b)[1..] == a[1..] + b;
      FlattenAppend(a[1..], b);
    }
  }

  lemma FlattenLast(a: seq<seq<byte>>, x: seq<byte>)
    ensures Flatten(a + [x]) == Flatten(a) + x
  {
    FlattenAppend(a, [x]);
    assert Flatten([x]) == x + Flatten([]);
  }

  /** std::memmove(buf, buf + from, n). */
  method MoveToFront(buf: array<byte>, from: nat, n: nat)
    requires from + n <= buf.Length
    modifies buf
    ensures buf[..n] == old(buf[from..from + n])
    ensures buf[n..] == old(buf[n..])
  {
    for i := 0 to n
      invariant forall j :: 0 <= j < i ==> buf[j] == old(buf[from + j])
      invariant forall j :: i <= j < buf.Length ==> buf[j] == old(buf[j])
    {
      buf[i] := buf[from + i];
    }
  }

  /** std::memcpy(dst + at, src, |src|). */
  method CopyIn(dst: array<byte>, at: nat, src: seq<byte>)
    requires at + |src| <= dst.Length
    modifies dst
    ensures dst[..] == old(dst[..at]) + src + old(dst[at + |src|..])
  {
    for i := 0 to |src|
      invariant forall j :: 0 <= j < i ==> dst[at + j] == src[j]
      invariant forall j :: 0 <= j < at || at + i <= j < dst.Length ==> dst[j] == old(dst[j])
    {
      dst[at + i] := src[i];
    }
  }
}
