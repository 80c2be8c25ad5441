/** Fixed-width unsigned integers and their byte layouts on the wire. */
module Bytes {

  type byte = x: int | 0 <= x < 0x100
  type u16 = x: int | 0 <= x < 0x1_0000
  type u32 = x: int | 0 <= x < 0x1_0000_0000
  type u64 = x: int | 0 <= x < 0x1_0000_0000_0000_0000
  type i64 = x: int | -0x8000_0000_0000_0000 <= x < 0x8000_0000_0000_0000

  const U32Max: u32 := 0xFFFF_FFFF

  /** Rust's `n as u32` for a non-negative `n`: keeps the low 32 bits. */
  function TruncateU32(n: nat): (r: u32)
    ensures n <= U32Max ==> r == n
    ensures n > U32Max ==> r != n
    ensures (n - r) % 0x1_0000_0000 == 0
  {
    n % 0x1_0000_0000
  }

  /** `u32::from_le_bytes`: the first byte is the least significant. */
  function FromLeBytes32(b: seq<byte>): u32
    requires |b| == 4
  {
    b[0] as int + 0x100 * (b[1] as int + 0x100 * (b[2] as int + 0x100 * b[3] as int))
  }

  /** `u16::from_be_bytes`: the first byte is the most significant. */
  function FromBeBytes16(b: seq<byte>): u16
    requires |b| == 2
  {
    0x100 * b[0] as int + b[1] as int
  }

  /** `write_u32_le`: four bytes that read back, little-endian, as `n`. */
  function LeBytes32(n: u32): (b: seq<byte>)
    ensures |b| == 4
    ensures FromLeBytes32(b) == n
  {
    var q1 := n / 0x100;
    var q2 := q1 / 0x100;
    [n % 0x100, q1 % 0x100, q2 % 0x100, q2 / 0x100]
  }

  /** `write_u16` (network order): two bytes that read back, big-endian, as `n`. */
  function BeBytes16(n: u16): (b: seq<byte>)
    ensures |b| == 2
    ensures FromBeBytes16(b) == n
  {
    [n / 0x100, n % 0x100]
  }

  /** Every four bytes are the little-endian layout of exactly one u32. */
  lemma LeBytes32Inverse(b: seq<byte>)
    requires |b| == 4
    ensures LeBytes32(FromLeBytes32(b)) == b
  {
  }

  /** Every two bytes are the big-endian layout of exactly one u16. */
  lemma BeBytes16Inverse(b: seq<byte>)
    requires |b| == 2
    ensures BeBytes16(FromBeBytes16(b)) == b
  {
  }
}
