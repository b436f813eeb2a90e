/** Bytes, little-endian loads and the fixed-width unsigned types the codec computes with. */
module Bytes {
  import opened Arithmetic

  type byte = x: int | 0 <= x < 0x100
  type uint16 = x: int | 0 <= x < 0x1_0000
  type uint32 = x: int | 0 <= x < 0x1_0000_0000

  const TWO32: int := 0x1_0000_0000

  datatype Option<+T> = None | Some(value: T)

  /** Byte `i` of a word of `k` bytes at `p`; bytes past the word count as zero. */
  function Byte(s: seq<byte>, p: nat, i: nat, k: nat): (v: byte)
    requires p + k <= |s|
  {
    if i < k then s[p + i] else 0
  }

  /** The unsigned number that the `k` bytes at `p` hold, least significant byte first. */
  function Le(s: seq<byte>, p: nat, k: nat): (v: nat)
    requires k <= 4 && p + k <= |s|
    ensures v < Pow256(k)
  {
    Byte(s, p, 0, k) + 0x100 * (Byte(s, p, 1, k) as int) + 0x1_0000 * (Byte(s, p, 2, k) as int) +
      0x100_0000 * (Byte(s, p, 3, k) as int)
  }

  /** 256 to the power `k`, for the widths a 32-bit word can be cut to. */
  function Pow256(k: nat): (v: nat)
    requires k <= 4
  {
    if k == 0 then 1 else if k == 1 then 0x100 else if k == 2 then 0x1_0000
    else if k == 3 then 0x100_0000 else 0x1_0000_0000
  }

  /** A 32-bit load (memcpy of four bytes on a little-endian host). */
  function Load32(s: seq<byte>, p: nat): (v: uint32)
    requires p + 4 <= |s|
  {
    Le(s, p, 4)
  }

  lemma Digits(a: int, b: int, c: int, d: int)
    requires 0 <= a < 0x100 && 0 <= b < 0x100 && 0 <= c < 0x100 && 0 <= d < 0x100
    ensures var v := a + 0x100 * b + 0x1_0000 * c + 0x100_0000 * d;
      && v % 0x100 == a && v % 0x1_0000 == a + 0x100 * b
      && v % 0x100_0000 == a + 0x100 * b + 0x1_0000 * c && v % 0x1_0000_0000 == v && v % 1 == 0
  {
    var v := a + 0x100 * b + 0x1_0000 * c + 0x100_0000 * d;
    QuotientUnique(v, 0x100, b + 0x100 * c + 0x1_0000 * d, a);
    QuotientUnique(v, 0x1_0000, c + 0x100 * d, a + 0x100 * b);
    QuotientUnique(v, 0x100_0000, d, a + 0x100 * b + 0x1_0000 * c);
  }

  /** Masking a 32-bit load to `k` bytes reads exactly the first `k` bytes: what follows them,
      stale or not, has no influence. */
  lemma MaskedLoad(s: seq<byte>, p: nat, k: nat)
    requires p + 4 <= |s| && k <= 4
    ensures Load32(s, p) % Pow256(k) == Le(s, p, k)
  {
    Digits(s[p], s[p + 1], s[p + 2], s[p + 3]);
  }
}
