/** Machine integers and the total little-endian readers every parser goes through. */
module Bytes {

  type byte = x: int | 0 <= x < 0x100
  type u16 = x: int | 0 <= x < 0x1_0000
  type u32 = x: int | 0 <= x < 0x1_0000_0000
  type u64 = x: int | 0 <= x < 0x1_0000_0000_0000_0000

  const MAX_U64: u64 := 0xFFFF_FFFF_FFFF_FFFF

  /** The bytes of a volume; its size is a `u64`, as the reader's end position is. */
  type Image = d: seq<byte> | |d| <= MAX_U64

  /** A GUID in its on-disk byte order. */
  type Guid = g: seq<byte> | |g| == 16 witness seq(16, _ => 0)

  function SaturatingAdd(a: u64, b: u64): u64 {
    if a + b <= MAX_U64 then a + b else MAX_U64
  }

  function Min(a: int, b: int): int {
    if a <= b then a else b
  }

  /** Bit `i` of `n`, least significant first. */
  predicate Bit(n: nat, i: nat) {
    if i == 0 then n % 2 == 1 else Bit(n / 2, i - 1)
  }

  function Pow256(k: nat): (p: nat)
    ensures p > 0
  {
    if k == 0 then 1 else 256 * Pow256(k - 1)
  }

  /** The number a little-endian byte string stands for. */
  function Value(b: seq<byte>): (v: nat)
    ensures v < Pow256(|b|)
  {
    if b == [] then 0 else b[0] + 256 * Value(b[1..])
  }

  /** The little-endian byte string of `n`, `width` bytes long. */
  function Encode(n: nat, width: nat): (b: seq<byte>)
    ensures |b| == width
  {
    if width == 0 then [] else [n % 256] + Encode(n / 256, width - 1)
  }

  lemma {:induction false} ValueOfEncode(n: nat, width: nat)
    requires n < Pow256(width)
    ensures Value(Encode(n, width)) == n
  {
    if width > 0 {
      ValueOfEncode(n / 256, width - 1);
      assert Encode(n, width)[1..] == Encode(n / 256, width - 1);
    }
  }

  lemma LowByte(low: byte, rest: nat)
    ensures (low + 256 * rest) % 256 == low && (low + 256 * rest) / 256 == rest
  {
  }

  lemma {:induction false} EncodeOfValue(b: seq<byte>)
    ensures Encode(Value(b), |b|) == b
  {
    if b != [] {
      EncodeOfValue(b[1..]);
      LowByte(b[0], Value(b[1..]));
      assert b == [b[0]] + b[1..];
    }
  }

  /** The `width`-byte field at `off`, or 0 when it does not lie wholly in `b`. */
  function Field(b: seq<byte>, off: nat, width: nat): (v: nat)
    ensures v < Pow256(width)
  {
    if off + width <= |b| then Value(b[off..off + width]) else 0
  }

  function LeU16(b: seq<byte>, off: nat): u16 {
    assert Pow256(2) == 0x1_0000;
    Field(b, off, 2)
  }

  function LeU32(b: seq<byte>, off: nat): u32 {
    assert Pow256(4) == 0x1_0000_0000;
    Field(b, off, 4)
  }

  function LeU64(b: seq<byte>, off: nat): u64 {
    assert Pow256(8) == 0x1_0000_0000_0000_0000;
    Field(b, off, 8)
  }

  function ReadGuid(b: seq<byte>, off: nat): Guid {
    if off + 16 <= |b| then b[off..off + 16] else seq(16, _ => 0)
  }

  /** A field reads back what an encoder put at that place, whatever surrounds it. */
  lemma FieldOfEncode(before: seq<byte>, n: nat, width: nat, after: seq<byte>)
    requires n < Pow256(width)
    ensures Field(before + Encode(n, width) + after, |before|, width) == n
  {
    var all := before + Encode(n, width) + after;
    assert all[|before|..|before| + width] == Encode(n, width);
    ValueOfEncode(n, width);
  }

  lemma TakeOfDrop<T>(s: seq<T>, lo: nat, hi: nat)
    requires lo <= hi <= |s|
    ensures s[lo..][..hi - lo] == s[lo..hi] && s[..hi][lo..] == s[lo..hi]
  {
  }
}
