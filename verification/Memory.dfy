/** The memory primitives the codec is written with, over byte arrays. */
module Memory {
  import opened Bytes

  /** Outside `[from, to)` the array is as it was. */
  twostate predicate OnlyWrites(a: array<byte>, from: nat, to: nat)
    reads a
  {
    forall i | 0 <= i < a.Length && !(from <= i < to) :: a[i] == old(a[i])
  }

  lemma SliceFront(a: array<byte>, from: nat, to: nat, n: nat)
    requires from + n <= to <= a.Length
    ensures a[from..to][..n] == a[from..from + n]
  {
    forall i | 0 <= i < n
      ensures a[from..to][..n][i] == a[from..from + n][i]
    {
      assert a[from..to][i] == a[from + i];
    }
  }

  /** memcpy of bytes that lie elsewhere. */
  method Memcpy(dst: array<byte>, at: nat, src: seq<byte>)
    requires at + |src| <= dst.Length
    modifies dst
    ensures dst[at..at + |src|] == src
    ensures OnlyWrites(dst, at, at + |src|)
  {
    forall i | 0 <= i < |src| {
      dst[at + i] := src[i];
    }
  }

  /** A 32-bit store, least significant byte first. */
  method Store32(dst: array<byte>, at: nat, v: uint32)
    requires at + 4 <= dst.Length
    modifies dst
    ensures dst[at..at + 4] == [v % 0x100, v / 0x100 % 0x100, v / 0x1_0000 % 0x100, v / 0x100_0000]
    ensures OnlyWrites(dst, at, at + 4)
  {
    dst[at] := v % 0x100;
    dst[at + 1] := v / 0x100 % 0x100;
    dst[at + 2] := v / 0x1_0000 % 0x100;
    dst[at + 3] := v / 0x100_0000;
  }
}
