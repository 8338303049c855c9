/** Bytes, 32-bit words in little-endian order, and C's conversions between signed and unsigned. */
module Bytes {
  type byte = b: int | 0 <= b < 256

  const TWO31 := 0x8000_0000
  const TWO32 := 0x1_0000_0000

  const TWO64 := TWO32 * TWO32

  type uint32 = u: int | 0 <= u < TWO32

  /** Unsigned 32-bit arithmetic: the result modulo 2^32. */
  function Wrap(x: int): uint32 { x % TWO32 }

  function Add32(x: int, y: int): uint32 { Wrap(x + y) }

  function Sub32(x: int, y: int): uint32 { Wrap(x - y) }

  function Mul32(x: int, y: int): uint32 { Wrap(x * y) }

  /** The int with the same 32 bits as u. */
  function Signed(u: uint32): int { if u < TWO31 then u else u - TWO32 }

  function U32(s: seq<byte>): uint32
    requires |s| == 4
  {
    (s[0] as int) + 256 * ((s[1] as int) + 256 * ((s[2] as int) + 256 * (s[3] as int)))
  }

  function LE32(u: uint32): (s: seq<byte>)
    ensures |s| == 4
  {
    [u % 256, u / 256 % 256, u / 256 / 256 % 256, u / 256 / 256 / 256]
  }

  lemma LE32U32(u: uint32)
    ensures U32(LE32(u)) == u
  {
  }

  lemma U32LE32(s: seq<byte>)
    requires |s| == 4
    ensures LE32(U32(s)) == s
  {
    var (a, b, c, d) := (s[0] as int, s[1] as int, s[2] as int, s[3] as int);
    assert U32(s) / 256 == b + 256 * (c + 256 * d);
    assert U32(s) / 256 / 256 == c + 256 * d;
    assert s == [s[0], s[1], s[2], s[3]];
  }

  function Min(a: int, b: int): int { if a < b then a else b }

  function Max(a: int, b: int): int { if a < b then b else a }

  /** buf with the bytes from position at on overwritten by data. */
  function Splice<T>(buf: seq<T>, at: nat, data: seq<T>): (r: seq<T>)
    requires at + |data| <= |buf|
    ensures |r| == |buf|
    ensures forall i :: 0 <= i < |buf| ==> r[i] == if at <= i < at + |data| then data[i - at] else buf[i]
  {
    buf[..at] + data + buf[at + |data|..]
  }
}
