/** Several byte arrays read as one. */
module Buffers {
  import opened Bytes

  ghost predicate Distinct(iov: seq<array<byte>>) {
    forall i, j | 0 <= i < j < |iov| :: iov[i] != iov[j]
  }

  /** Where buffer `i` starts in the concatenation of all. */
  ghost function Start(iov: seq<array<byte>>, i: nat): nat
    requires i <= |iov|
  {
    if i == 0 then 0 else Start(iov, i - 1) + iov[i - 1].Length
  }

  /** The first `i` buffers, one behind the other. */
  ghost function Concatenated(iov: seq<array<byte>>, i: nat): (s: seq<byte>)
    requires i <= |iov|
    reads iov
    ensures |s| == Start(iov, i)
  {
    if i == 0 then [] else Concatenated(iov, i - 1) + iov[i - 1][..]
  }

  lemma {:induction false} StartMonotone(iov: seq<array<byte>>, i: nat, j: nat)
    requires i <= j <= |iov|
    ensures Start(iov, i) <= Start(iov, j)
  {
    if i < j {
      StartMonotone(iov, i, j - 1);
    }
  }

  lemma {:induction false} PartOfConcatenated(iov: seq<array<byte>>, i: nat, k: nat, offset: nat, n: nat)
    requires i < k <= |iov| && offset + n <= iov[i].Length
    ensures Start(iov, i) + offset + n <= Start(iov, k)
    ensures Concatenated(iov, k)[Start(iov, i) + offset..Start(iov, i) + offset + n] == iov[i][offset..offset + n]
    decreases k
  {
    if i + 1 < k {
      PartOfConcatenated(iov, i, k - 1, offset, n);
      StartMonotone(iov, i + 1, k - 1);
    } else {
      assert iov[i][..][offset..offset + n] == iov[i][offset..offset + n];
    }
  }

  /** More buffers behind do not change what the first ones hold. */
  lemma {:induction false} ConcatenatedPrefix(iov: seq<array<byte>>, more: seq<array<byte>>, k: nat)
    requires k <= |iov|
    ensures Start(iov + more, k) == Start(iov, k) && Concatenated(iov + more, k) == Concatenated(iov, k)
  {
    if k > 0 {
      ConcatenatedPrefix(iov, more, k - 1);
    }
  }
}
