/** Fixed-width integers and their network byte order images (RFC 791,
    Appendix B: the most significant octet is transmitted first). */
module Bytes {

  type byte = x: int | 0 <= x < 0x100
  type u16 = x: int | 0 <= x < 0x1_0000
  type u32 = x: int | 0 <= x < 0x1_0000_0000

  /** A C `int` on the platforms the program targets: 32-bit two's complement. */
  type CInt = x: int | -0x8000_0000 <= x < 0x8000_0000

  const INT_MAX: int := 0x7fff_ffff

  /** The conversion of a C `int` to `uint32_t`: reduction modulo 2^32. */
  function ToU32(x: CInt): (r: u32)
    ensures r % 0x1_0000_0000 == x % 0x1_0000_0000
    ensures x >= 0 ==> r == x
  {
    if x >= 0 then x else x + 0x1_0000_0000
  }

  /** The conversion of a C `int` to `uint16_t`: reduction modulo 2^16. */
  function ToU16(x: int): (r: u16)
    ensures r % 0x1_0000 == x % 0x1_0000
    ensures 0 <= x < 0x1_0000 ==> r == x
  {
    x % 0x1_0000
  }

  /** `htonl(x)` as it lies in memory: the four octets of `x`, most significant first. */
  function U32ToBytes(x: u32): (b: seq<byte>)
    ensures |b| == 4
  {
    [x / 0x100_0000, x / 0x1_0000 % 0x100, x / 0x100 % 0x100, x % 0x100]
  }

  /** `ntohl` of a field whose four octets in memory are `b`. */
  function BytesToU32(b: seq<byte>): u32
    requires |b| == 4
  {
    (b[0] as int) * 0x100_0000 + (b[1] as int) * 0x1_0000 + (b[2] as int) * 0x100 + b[3] as int
  }

  /** `ntohl(htonl(x)) == x`. */
  lemma U32RoundTrip(x: u32)
    ensures BytesToU32(U32ToBytes(x)) == x
  {
    var q1, q2, q3 := x / 0x100, x / 0x1_0000, x / 0x100_0000;
    assert x == q1 * 0x100 + x % 0x100;
    assert q2 == q1 / 0x100 && q1 == q2 * 0x100 + q1 % 0x100;
    assert q3 == q2 / 0x100 && q2 == q3 * 0x100 + q2 % 0x100;
  }

  /** `htonl(ntohl(f)) == f`: every four-octet field is the image of exactly one value. */
  lemma BytesRoundTrip(b: seq<byte>)
    requires |b| == 4
    ensures U32ToBytes(BytesToU32(b)) == b
  {
    var x := BytesToU32(b);
    var low := (b[1] as int) * 0x1_0000 + (b[2] as int) * 0x100 + b[3] as int;
    DivModOf(b[0], low, 0x100_0000);
    DivModOf((b[0] as int) * 0x100 + b[1], (b[2] as int) * 0x100 + b[3] as int, 0x1_0000);
    DivModOf(b[0], b[1], 0x100);
    DivModOf((b[0] as int) * 0x1_0000 + (b[1] as int) * 0x100 + b[2], b[3], 0x100);
    DivModOf((b[0] as int) * 0x100 + b[1], b[2], 0x100);
  }

  /** Euclidean division recovers quotient and remainder. */
  lemma DivModOf(q: int, r: int, d: int)
    requires d > 0 && 0 <= r < d
    ensures (q * d + r) / d == q && (q * d + r) % d == r
  {
    var x := q * d + r;
    var k := x / d - q;
    assert k * d == r - x % d by {
      assert x == (x / d) * d + x % d;
      assert (x / d) * d == (k + q) * d == k * d + q * d;
    }
  }

  /** `htons(x)` as it lies in memory. */
  function U16ToBytes(x: u16): (b: seq<byte>)
    ensures |b| == 2
  {
    [x / 0x100, x % 0x100]
  }

  /** `ntohs` of a field whose two octets in memory are `b`. */
  function BytesToU16(b: seq<byte>): u16
    requires |b| == 2
  {
    (b[0] as int) * 0x100 + b[1] as int
  }

  /** `ntohs(htons(x)) == x`, and the zero value is the only one whose image is all zero. */
  lemma U16RoundTrip(x: u16)
    ensures BytesToU16(U16ToBytes(x)) == x
    ensures U16ToBytes(x) == [0, 0] <==> x == 0
  {
  }
}
