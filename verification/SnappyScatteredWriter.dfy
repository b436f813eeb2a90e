/** The writer into blocks that it allocates as it goes, and that are flushed to a sink at the end. */
module SnappyScatteredWriter {
  import opened Arithmetic
  import opened Bytes
  import opened Buffers
  import opened Memory
  import opened SnappyFormat
  import opened SnappyCopy
  import opened SnappyArrayWriter

  function Flattened(pieces: seq<seq<byte>>): seq<byte> {
    if pieces == [] then [] else Flattened(pieces[..|pieces| - 1]) + pieces[|pieces| - 1]
  }

  /** A sink that takes whole buffers. */
  class PieceSink {
    var pieces: seq<seq<byte>>
    /** Size of the flat buffer it can offer to be written into. */
    const offer: nat

    constructor (offer: nat)
      ensures pieces == [] && this.offer == offer
    {
      pieces, this.offer := [], offer;
    }

    method AppendAndTakeOwnership(bytes: seq<byte>)
      modifies this
      ensures pieces == old(pieces) + [bytes]
    {
      pieces := pieces + [bytes];
    }
  }

  class ScatteredWriter {
    var blocks: seq<array<byte>>
    var expected: nat
    var fullSize: nat
    var opPtr: nat
    var opLimit: nat
    ghost var out: seq<byte>

    constructor ()
      ensures Valid() && out == [] && blocks == [] && fresh(Repr())
    {
      blocks, expected, fullSize, opPtr, opLimit, out := [], 0, 0, 0, 0, [];
    }

    ghost function Repr(): set<object>
      reads this
    {
      {this} + set i | 0 <= i < |blocks| :: blocks[i] as object
    }

    /** All blocks but the last are full and `full` bytes are in them; the last one is as large as the
        expected length leaves room for. */
    ghost predicate Layout(full: nat)
      reads `blocks, `expected, `opPtr, `opLimit, `out, blocks
    {
      && Distinct(blocks) && |out| <= expected < TWO32 && opPtr <= opLimit
      && if blocks == [] then opLimit == 0 && full == 0 && out == []
         else
           var last := |blocks| - 1;
           && full == Start(blocks, last) == BLOCK_SIZE * last < expected
           && (forall i | 0 <= i < last :: blocks[i].Length == BLOCK_SIZE)
           && blocks[last].Length == opLimit == Min(BLOCK_SIZE, expected - full)
           && out == Concatenated(blocks, last) + blocks[last][..opPtr]
    }

    ghost predicate Valid()
      reads this, blocks
    {
      Layout(fullSize)
    }

    function Size(): nat
      reads this
    {
      fullSize + opPtr
    }

    method SetExpectedLength(len: uint32)
      requires Valid() && blocks == []
      modifies this`expected
      ensures Valid() && expected == len
    {
      expected := len;
    }

    method CheckLength() returns (ok: bool)
      requires Valid()
      ensures ok <==> |out| == expected
    {
      ok := Size() == expected;
    }

    /** Moves over `n` bytes of the current block that are already in place. */
    method Advance(n: nat)
      requires Valid() && blocks != [] && opPtr + n <= opLimit
      modifies this`opPtr, this`out
      ensures Valid() && opPtr == old(opPtr) + n
      ensures out == old(out) + blocks[|blocks| - 1][old(opPtr)..opPtr]
    {
      hide Start, Concatenated;
      ghost var before, a := Concatenated(blocks, |blocks| - 1), blocks[|blocks| - 1][..];
      assert a[..opPtr + n] == a[..opPtr] + a[opPtr..opPtr + n];
      assert before + a[..opPtr + n] == out + a[opPtr..opPtr + n];
      out := out + a[opPtr..opPtr + n];
      opPtr := opPtr + n;
    }

    twostate lemma EarlierUnchanged(i: nat)
      requires blocks == old(blocks) && i <= |blocks| && forall j | 0 <= j < i :: unchanged(blocks[j])
      ensures Concatenated(blocks, i) == old(Concatenated(blocks, i))
    {
      if i > 0 {
        EarlierUnchanged(i - 1);
        assert blocks[i - 1][..] == old(blocks[i - 1][..]);
      }
    }

    /** Bytes behind the cursor do not matter. */
    twostate lemma WriteBehindCursor()
      requires unchanged(this) && old(Valid()) && blocks != [] && opPtr <= blocks[|blocks| - 1].Length
      requires forall j | 0 <= j < |blocks| - 1 :: unchanged(blocks[j])
      requires blocks[|blocks| - 1][..opPtr] == old(blocks[|blocks| - 1][..opPtr])
      ensures Valid()
    {
      EarlierUnchanged(|blocks| - 1);
    }

    /** Stores `bytes` at the cursor and moves over the first `n` of them. */
    method Put(bytes: seq<byte>, n: nat)
      requires Valid() && n <= |bytes| <= opLimit - opPtr
      modifies Repr()
      ensures blocks == old(blocks) && expected == old(expected) && opLimit == old(opLimit) && fullSize == old(fullSize)
      ensures Valid() && opPtr == old(opPtr) + n && out == old(out) + bytes[..n]
    {
      hide Start, Concatenated, Layout;
      if bytes == [] {
        assert bytes[..n] == [];
        return;
      }
      assert blocks != [] && blocks[|blocks| - 1].Length == opLimit && Distinct(blocks) by { CurrentBlock(); }
      var a, at := blocks[|blocks| - 1], opPtr;
      assert a in blocks && a in Repr();
      Memcpy(a, at, bytes);
      assert a[..at] == old(a[..at]);
      WriteBehindCursor();
      assert a[at..at + |bytes|][..n] == a[at..at + n];
      Advance(n);
    }

    lemma CurrentBlock()
      requires Valid() && opPtr < opLimit
      ensures blocks != [] && blocks[|blocks| - 1].Length == opLimit && Distinct(blocks)
    {
    }

    method Append(bytes: seq<byte>) returns (ok: bool)
      requires Valid()
      modifies Repr()
      ensures ok <==> |old(out)| + |bytes| <= old(expected)
      ensures ok ==> Valid() && expected == old(expected) && out == old(out) + bytes
      ensures fresh(Repr() - old(Repr()))
    {
      var avail := opLimit - opPtr;
      if |bytes| <= avail {
        WithinExpected();
        assert bytes[..|bytes|] == bytes;
        Put(bytes, |bytes|);
        return true;
      }
      ok := SlowAppend(bytes);
    }

    lemma WithinExpected()
      requires Valid()
      ensures |out| == Size() && Size() + (opLimit - opPtr) <= expected < TWO32 && opPtr <= opLimit
    {
    }

    /** Fills the current block and goes on in new ones. */
    method SlowAppend(bytes: seq<byte>) returns (ok: bool)
      requires Valid() && |bytes| > opLimit - opPtr
      modifies Repr()
      ensures ok <==> |old(out)| + |bytes| <= old(expected)
      ensures ok ==> Valid() && expected == old(expected) && out == old(out) + bytes
      ensures fresh(Repr() - old(Repr()))
    {
      hide Start, Concatenated, Layout;
      var done, avail := 0, opLimit - opPtr;
      ghost var checked := false;
      WithinExpected();
      while |bytes| - done > avail
        invariant Valid() && expected == old(expected) && fresh(Repr() - old(Repr()))
        invariant 0 <= done <= |bytes| && 0 <= avail == opLimit - opPtr && out == old(out) + bytes[..done]
        invariant if checked then |old(out)| + |bytes| <= expected else done == 0 && |bytes| > avail
        decreases |bytes| - done, opLimit - opPtr == 0
      {
        WithinExpected();
        var piece := bytes[done..done + avail];
        assert piece[..avail] == piece && bytes[..done + avail] == bytes[..done] + piece;
        Put(piece, avail);
        WithinExpected();
        fullSize := fullSize + opPtr;
        done := done + avail;
        if fullSize + (|bytes| - done) > expected {
          return false;
        }
        checked := true;
        NewBlock();
        avail := opLimit;
      }
      WithinExpected();
      var rest := bytes[done..];
      assert rest[..|rest|] == rest && bytes[..done] + rest == bytes;
      Put(rest, |rest|);
      return true;
    }

    /** Allocates the next block behind a full one, whose size has already been counted. */
    method NewBlock()
      requires fullSize >= opPtr && Layout(fullSize - opPtr) && opPtr == opLimit && fullSize < expected
      modifies this
      ensures Valid() && expected == old(expected) && out == old(out) && opPtr == 0 < opLimit
      ensures fresh(Repr() - old(Repr()))
    {
      hide Start, Concatenated;
      var bsize := Min(BLOCK_SIZE, expected - fullSize);
      var block := new byte[bsize];
      NewBlockLayout(block);
      opPtr := 0;
      opLimit := bsize;
      blocks := blocks + [block];
      assert block[..0] == [];
    }

    lemma NewBlockLayout(block: array<byte>)
      requires fullSize >= opPtr && Layout(fullSize - opPtr) && opPtr == opLimit && fullSize < expected
      ensures fullSize == Start(blocks + [block], |blocks|) == BLOCK_SIZE * |blocks|
      ensures forall i | 0 <= i < |blocks| :: blocks[i].Length == BLOCK_SIZE
      ensures Concatenated(blocks + [block], |blocks|) == out
    {
      ConcatenatedPrefix(blocks, [block], |blocks|);
      if blocks != [] {
        assert blocks[|blocks| - 1][..opPtr] == blocks[|blocks| - 1][..];
      }
    }

    /** May decline.  `bytes` is what can be read, of which the first `len` are to be appended. */
    method TryFastAppend(bytes: seq<byte>, len: nat) returns (ok: bool)
      requires Valid()
      modifies Repr()
      ensures Valid() && expected == old(expected) && Repr() == old(Repr())
      ensures ok ==> len <= 16 && |bytes| >= 16 + MAXIMUM_TAG_LENGTH && out == old(out) + bytes[..len]
      ensures ok ==> |out| <= expected
      ensures !ok ==> out == old(out)
    {
      hide Start, Concatenated, Layout;
      var spaceLeft := opLimit - opPtr;
      if len <= 16 && |bytes| >= 16 + MAXIMUM_TAG_LENGTH && spaceLeft >= 16 {
        assert bytes[..16][..len] == bytes[..len];
        Put(bytes[..16], len);
        WithinExpected();
        return true;
      }
      return false;
    }

    method AppendFromSelf(offset: nat, len: nat) returns (ok: bool)
      requires Valid()
      modifies Repr()
      ensures ok <==> CanCopy(|old(out)|, offset, len, old(expected))
      ensures ok ==> Valid() && expected == old(expected) && out == CopyFrom(old(out), offset, len)
      ensures fresh(Repr() - old(Repr()))
    {
      hide Start, Concatenated, Layout, CopyFrom;
      WithinExpected();
      var opEnd := opPtr + len;
      if MinusOne(offset) < opPtr && opEnd <= opLimit {
        CopyWithin(offset, len);
        return true;
      }
      ok := SlowAppendFromSelf(offset, len);
    }

    /** Source and destination both in the current block. */
    method CopyWithin(offset: nat, len: nat)
      requires Valid() && 0 < offset <= opPtr && opPtr + len <= opLimit
      modifies Repr()
      ensures Valid() && expected == old(expected) && blocks == old(blocks)
      ensures offset <= |old(out)| && out == CopyFrom(old(out), offset, len)
    {
      hide Start, Concatenated, Layout, CopyFrom, Repeats;
      BlockInOutput();
      var a, at := blocks[|blocks| - 1], opPtr;
      assert a in blocks && a in Repr();
      IncrementalCopy(a, at - offset, at, at + len, opLimit);
      assert a[..at] == old(a[..at]);
      WriteBehindCursor();
      Advance(len);
      RepeatsIsCopy(a[..], 0, offset, at, at + len);
      ghost var s := old(out);
      assert a[..][0..at] == s[|s| - at..] && a[..][0..at + len] == a[..at + len];
      CopyFromBehind(s[..|s| - at], s[|s| - at..], offset, len);
      assert s == s[..|s| - at] + s[|s| - at..];
      assert a[..at + len] == a[..at] + a[at..at + len];
      assert out == s + a[at..at + len] == s[..|s| - at] + (s[|s| - at..] + a[at..at + len]);
    }

    lemma BlockInOutput()
      requires Valid() && opPtr > 0
      ensures blocks != [] && blocks[|blocks| - 1].Length == opLimit && Distinct(blocks)
      ensures opPtr <= |out| && out[|out| - opPtr..] == blocks[|blocks| - 1][..opPtr]
    {
    }

    /** Byte by byte, from wherever the source lies: block and position are the high and low bits. */
    method SlowAppendFromSelf(offset: nat, len: nat) returns (ok: bool)
      requires Valid()
      modifies Repr()
      ensures ok <==> CanCopy(|old(out)|, offset, len, old(expected))
      ensures ok ==> Valid() && expected == old(expected) && out == CopyFrom(old(out), offset, len)
      ensures fresh(Repr() - old(Repr()))
    {
      hide Start, Concatenated, Layout, CopyFrom;
      WithinExpected();
      var cur := Size();
      if MinusOne(offset) >= cur {
        return false;
      }
      if expected - cur < len {
        return false;
      }
      var src, left := cur - offset, len;
      CopyNothing(out, offset);
      while left > 0
        invariant Valid() && expected == old(expected) && fresh(Repr() - old(Repr()))
        invariant 0 <= left <= len && src == |out| - offset && |out| + left <= expected
        invariant out == CopyFrom(old(out), offset, len - left)
      {
        ByteOfOutput(src);
        var c := blocks[src / BLOCK_SIZE][src % BLOCK_SIZE];
        CopyOne(old(out), offset, len - left);
        var appended := Append([c]);
        left := left - 1;
        src := src + 1;
      }
      return true;
    }

    lemma CopyNothing(s: seq<byte>, offset: nat)
      requires 0 < offset <= |s|
      ensures CopyFrom(s, offset, 0) == s
    {
    }

    lemma CopyOne(s: seq<byte>, offset: nat, done: nat)
      requires 0 < offset <= |s|
      ensures var r := CopyFrom(s, offset, done); CopyFrom(s, offset, done + 1) == r + [r[|r| - offset]]
    {
      CopyFromSplit(s, offset, done, 1);
    }

    /** Where byte `g` of the output is kept. */
    lemma ByteOfOutput(g: nat)
      requires Valid() && g < |out|
      ensures g / BLOCK_SIZE < |blocks| && g % BLOCK_SIZE < blocks[g / BLOCK_SIZE].Length
      ensures blocks[g / BLOCK_SIZE][g % BLOCK_SIZE] == out[g]
    {
      var i, k, last := g / BLOCK_SIZE, g % BLOCK_SIZE, |blocks| - 1;
      if i < last {
        StartOfFull(i);
        PartOfConcatenated(blocks, i, last, k, 1);
        assert out[g] == Concatenated(blocks, last)[g..g + 1][0] == blocks[i][k..k + 1][0];
      } else {
        assert i == last;
        assert out[g] == blocks[last][..opPtr][g - fullSize];
      }
    }

    lemma {:induction false} StartOfFull(i: nat)
      requires i < |blocks| && forall j | 0 <= j < i :: blocks[j].Length == BLOCK_SIZE
      ensures Start(blocks, i) == BLOCK_SIZE * i
    {
      if i > 0 {
        StartOfFull(i - 1);
      }
    }

    /** Hands the blocks to an empty sink, and of the last one no more than was written. */
    method Flush(sink: PieceSink)
      requires Valid() && sink.pieces == []
      modifies sink
      ensures Flattened(sink.pieces) == out && |sink.pieces| == |blocks|
      ensures forall i | 0 <= i < |blocks| - 1 :: |sink.pieces[i]| == BLOCK_SIZE
    {
      hide Start, Concatenated, Layout, Flattened;
      NothingFlattened();
      SizesAgree();
      var size, sizeWritten := Size(), 0;
      ConcatenatedNone();
      for i := 0 to |blocks|
        invariant |sink.pieces| == i && Valid() && size == |out|
        invariant i < |blocks| ==> sizeWritten == BLOCK_SIZE * i && Flattened(sink.pieces) == Concatenated(blocks, i)
        invariant i == |blocks| ==> Flattened(sink.pieces) == out
        invariant forall k | 0 <= k < i && k < |blocks| - 1 :: |sink.pieces[k]| == BLOCK_SIZE
      {
        SizesAgree();
        var blockSize := Min(blocks[i].Length, size - sizeWritten);
        FlushedBlock(i);
        FlattenedMore(sink.pieces, blocks[i][..blockSize]);
        sink.AppendAndTakeOwnership(blocks[i][..blockSize]);
        sizeWritten := sizeWritten + blockSize;
      }
    }

    static lemma NothingFlattened()
      ensures Flattened([]) == []
    {
    }

    static lemma FlattenedMore(pieces: seq<seq<byte>>, piece: seq<byte>)
      ensures Flattened(pieces + [piece]) == Flattened(pieces) + piece
    {
      assert (pieces + [piece])[..|pieces|] == pieces;
    }

    lemma ConcatenatedNone()
      ensures Concatenated(blocks, 0) == []
    {
    }

    lemma SizesAgree()
      requires Valid()
      ensures |out| == Size() && (blocks != [] ==> |out| == BLOCK_SIZE * (|blocks| - 1) + opPtr)
      ensures blocks == [] ==> out == []
    {
    }

    lemma FlushedBlock(i: nat)
      requires Valid() && i < |blocks|
      ensures i + 1 < |blocks| ==>
        blocks[i].Length == BLOCK_SIZE && Concatenated(blocks, i + 1) ==
          Concatenated(blocks, i) + blocks[i][..BLOCK_SIZE]
      ensures i + 1 == |blocks| ==> out == Concatenated(blocks, i) + blocks[i][..opPtr] && opPtr <= blocks[i].Length
    {
      if i + 1 < |blocks| {
        assert blocks[i][..BLOCK_SIZE] == blocks[i][..];
      }
    }
  }
}
