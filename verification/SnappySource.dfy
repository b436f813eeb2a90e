/** The byte sources and sinks the codec runs over. */
module SnappySource {
  import opened Bytes
  import opened Memory

  /** A source that hands out its bytes in regions of whatever sizes `chunk` dictates: the k-th call of
      `Peek` shows `chunk(k)` bytes, but at least one while bytes are left and never more than are left. */
  class Source {
    const data: seq<byte>
    const chunk: nat -> nat
    var pos: nat
    var peeks: nat
    /** How many of the regions shown so far had 2^32 bytes or more. */
    ghost var overlong: nat

    constructor (data: seq<byte>, chunk: nat -> nat)
      ensures Valid() && this.data == data && this.chunk == chunk && pos == 0 && peeks == 0 && overlong == 0
    {
      this.data, this.chunk, pos, peeks, overlong := data, chunk, 0, 0, 0;
    }

    ghost predicate Valid()
      reads this
    {
      pos <= |data| && Counted()
    }

    /** Only calls that may show as many bytes have shown a region of 2^32 or more. */
    ghost predicate Counted()
      reads this`peeks, this`overlong
    {
      overlong <= LongChunks(peeks) && (|data| < TWO32 ==> overlong == 0)
    }

    /** How many of the first `k` calls may show 2^32 bytes or more. */
    ghost function LongChunks(k: nat): nat {
      if k == 0 then 0 else LongChunks(k - 1) + Long(chunk(k - 1))
    }

    /** When only one call may show that many, at most that one counts. */
    lemma {:induction false} OneLongChunk(k: nat, kept: nat)
      requires forall i | 0 <= i < k && i != kept :: chunk(i) < TWO32
      ensures LongChunks(k) <= if kept < k then Long(chunk(kept)) else 0
    {
      if k > 0 {
        OneLongChunk(k - 1, kept);
      }
    }

    ghost function Left(): (s: seq<byte>)
      requires pos <= |data|
      reads this
      ensures |s| == |data| - pos
    {
      data[pos..]
    }

    function Available(): nat
      requires pos <= |data|
      reads this
    {
      |data| - pos
    }

    /** How many bytes the k-th call shows when `left` bytes are left. */
    function RegionLength(k: nat, left: nat): (n: nat)
      ensures n <= left && (n == 0 <==> left == 0)
    {
      var n := if chunk(k) == 0 then 1 else chunk(k);
      if n > left then left else n
    }

    /** The next flat region; empty only at the end.  The position stays. */
    method Peek() returns (region: seq<byte>)
      requires Valid()
      modifies this`peeks, this`overlong
      ensures Valid() && Left() == old(Left()) && region <= Left() && (region == [] <==> Left() == [])
      ensures |region| == RegionLength(old(peeks), |Left()|) && peeks == old(peeks) + 1
      ensures overlong == old(overlong) + Long(|region|)
    {
      var n := RegionLength(peeks, Available());
      peeks := peeks + 1;
      overlong := overlong + Long(n);
      region := data[pos..pos + n];
    }

    method Skip(n: nat)
      requires Valid() && n <= Available()
      modifies this`pos
      ensures Valid() && pos == old(pos) + n && Left() == old(Left())[n..]
    {
      pos := pos + n;
    }
  }

  /** 1 for a length that does not fit 32 bits. */
  ghost function Long(n: nat): nat {
    if n < TWO32 then 0 else 1
  }

  /** A sink over a flat array, without bounds checks of its own. */
  class UncheckedByteArraySink {
    const dest: array<byte>
    var pos: nat

    constructor (dest: array<byte>)
      ensures this.dest == dest && pos == 0
    {
      this.dest, pos := dest, 0;
    }

    /** Appends `n` bytes; `None` says they already stand at the current destination, because the
        caller wrote them into the append buffer. */
    method Append(elsewhere: Option<seq<byte>>, n: nat)
      requires pos + n <= dest.Length && (elsewhere.Some? ==> |elsewhere.value| == n)
      modifies this`pos, dest
      ensures pos == old(pos) + n
      ensures elsewhere.Some? ==> dest[old(pos)..pos] == elsewhere.value
      ensures elsewhere == None ==> dest[..] == old(dest[..])
      ensures OnlyWrites(dest, old(pos), pos)
    {
      if elsewhere.Some? {
        Memcpy(dest, pos, elsewhere.value);
      }
      pos := pos + n;
    }

    /** The append buffer is the destination itself. */
    function GetAppendBuffer(): (array<byte>, nat)
      reads this
    {
      (dest, pos)
    }
  }
}
