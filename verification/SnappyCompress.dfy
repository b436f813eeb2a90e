/** `Compress`: the preamble and one fragment per block, from any source, with the real hash. */
module SnappyCompress {
  import opened Bytes
  import opened Bits
  import opened Memory
  import opened SnappyEmit
  import opened SnappyFormat
  import opened SnappyFragment
  import opened SnappyPieces
  import opened SnappySource
  import Varint

  const MAX_HASH_TABLE_SIZE: nat := 0x4000

  function MaxCompressedLength(n: nat): nat { 32 + n + n / 6 }

  /** The multiplicative hash: the top bits of a 32-bit product. */
  function HashBytes(bytes: uint32, shift: nat): nat {
    Shr(bytes * 0x1e35_a7bd % TWO32, shift)
  }

  function HashFor(shift: nat): uint32 -> nat {
    (w: uint32) => HashBytes(w, shift)
  }

  lemma HashFits(k: nat)
    requires k <= 32
    ensures HashesInto(HashFor(32 - k), Pow2(k))
  {
    Pow2Of32();
    var hash := HashFor(32 - k);
    forall w: uint32
      ensures hash(w) < Pow2(k)
    {
      ShrBound(w * 0x1e35_a7bd % TWO32, 32 - k, k);
    }
  }

  /** Below the limit the table has the least power of two of buckets, at least 256, that the input fits. */
  method GetHashTable(inputSize: nat) returns (table: array<uint16>, ghost k: nat)
    ensures fresh(table) && table.Length == Pow2(k) && 8 <= k <= 14
    ensures table.Length >= inputSize || table.Length == MAX_HASH_TABLE_SIZE
    ensures k > 8 ==> Pow2(k - 1) < inputSize
    ensures forall i | 0 <= i < table.Length :: table[i] == 0
  {
    var htsize := 256;
    k := 8;
    Pow2Of32();
    assert Pow2(14) == 0x4000 by { assert Pow2(12) == 0x1000; }
    while htsize < MAX_HASH_TABLE_SIZE && htsize < inputSize
      invariant 8 <= k <= 14 && htsize == Pow2(k) <= MAX_HASH_TABLE_SIZE
      invariant htsize < MAX_HASH_TABLE_SIZE ==> k < 14
      invariant k > 8 ==> Pow2(k - 1) < inputSize
      decreases MAX_HASH_TABLE_SIZE - htsize
    {
      Pow2Between(k + 1);
      htsize := htsize * 2;
      k := k + 1;
    }
    table := new uint16[htsize](_ => 0);
  }

  /** The least number of bits from `k` on that index a table the input fits, 14 at most. */
  ghost function TableBits(inputSize: nat, k: nat): (r: nat)
    requires k <= 14
    ensures k <= r <= 14
    decreases 14 - k
  {
    if k < 14 && Pow2(k) < inputSize then TableBits(inputSize, k + 1) else k
  }

  lemma {:induction false} TableBitsAre(inputSize: nat, j: nat, k: nat)
    requires j <= k <= 14 && (Pow2(k) >= inputSize || k == 14) && (k > j ==> Pow2(k - 1) < inputSize)
    ensures TableBits(inputSize, j) == k
    decreases k - j
  {
    if j < k {
      if j < k - 1 {
        Pow2Strict(j, k - 1);
      }
      TableBitsAre(inputSize, j + 1, k);
    }
  }

  lemma Pow2Between(k: nat)
    requires 8 <= k <= 14
    ensures Pow2(k) <= MAX_HASH_TABLE_SIZE && (Pow2(k) < MAX_HASH_TABLE_SIZE <==> k < 14)
  {
    assert Pow2(10) == 1024 && Pow2(12) == 4096 && Pow2(14) == 0x4000 && Pow2(8) == 256;
    assert Pow2(9) == 512 && Pow2(11) == 2048 && Pow2(13) == 0x2000;
  }

  lemma {:induction false} Pow2Strict(j: nat, k: nat)
    requires j < k
    ensures 2 * Pow2(j) <= Pow2(k)
  {
    if j + 1 < k {
      Pow2Strict(j, k - 1);
    }
  }

  /** The next `n` bytes of the source, gathered over as many regions as it takes. */
  method ReadFragment(reader: Source, n: nat) returns (fragment: seq<byte>)
    requires reader.Valid() && 0 < n <= reader.Available()
    modifies reader
    ensures reader.Valid() && reader.pos == old(reader.pos) + n
    ensures fragment == old(reader.Left())[..n] && reader.Left() == old(reader.Left())[n..]
  {
    hide Source.Counted, Source.RegionLength, Source.Left;
    var region := reader.Peek();
    if |region| >= n {
      reader.Skip(n);
      return region[..n];
    }
    var scratch := new byte[n];
    ghost var left := reader.Left();
    var bytesRead := TakeRegion(reader, region, scratch, 0, n);
    FillFragment(reader, scratch, bytesRead);
    Further(left, bytesRead, n - bytesRead);
    fragment := scratch[..];
  }

  /** The rest of a fragment of which the first bytes are there. */
  method FillFragment(reader: Source, scratch: array<byte>, done: nat)
    requires reader.Valid() && done <= scratch.Length && scratch.Length - done <= reader.Available()
    modifies reader, scratch
    ensures reader.Valid() && reader.pos == old(reader.pos) + (scratch.Length - done)
    ensures scratch[..] == old(scratch[..done]) + old(reader.Left())[..scratch.Length - done]
    ensures reader.Left() == old(reader.Left())[scratch.Length - done..]
  {
    hide Source.Counted, Source.RegionLength, Source.Left;
    ghost var front, left, taken := scratch[..done], reader.Left(), 0;
    var bytesRead := done;
    assert front + left[..0] == front;
    while bytesRead < scratch.Length
      invariant reader.Valid() && bytesRead == done + taken <= scratch.Length && taken <= |left|
      invariant reader.Left() == left[taken..] && reader.pos == old(reader.pos) + taken
      invariant scratch[..bytesRead] == front + left[..taken]
    {
      var region := reader.Peek();
      var m := TakeRegion(reader, region, scratch, bytesRead, scratch.Length);
      Further(left, taken, m);
      assert front + left[..taken] + left[taken..][..m] == front + (left[..taken] + left[taken..][..m]);
      bytesRead, taken := bytesRead + m, taken + m;
    }
    assert scratch[..] == scratch[..bytesRead];
  }

  lemma Further(left: seq<byte>, done: nat, m: nat)
    requires done + m <= |left|
    ensures left[..done] + left[done..][..m] == left[..done + m] && left[done..][m..] == left[done + m..]
  {
  }

  /** As much of a peeked region as is still wanted. */
  method TakeRegion(reader: Source, region: seq<byte>, scratch: array<byte>, at: nat, n: nat) returns (m: nat)
    requires reader.Valid() && at < n <= scratch.Length && n - at <= reader.Available()
    requires region != [] && region <= reader.Left()
    modifies reader, scratch
    ensures reader.Valid() && 0 < m <= n - at && m <= |old(reader.Left())| && reader.pos == old(reader.pos) + m
    ensures reader.Left() == old(reader.Left())[m..]
    ensures scratch[..at + m] == old(scratch[..at]) + old(reader.Left())[..m]
  {
    m := if |region| < n - at then |region| else n - at;
    assert region[..m] == reader.Left()[..m];
    AppendTo(scratch, at, region[..m]);
    reader.Skip(m);
  }

  /** Extends the filled front of a buffer. */
  method AppendTo(scratch: array<byte>, at: nat, bytes: seq<byte>)
    requires at + |bytes| <= scratch.Length
    modifies scratch
    ensures scratch[..at + |bytes|] == old(scratch[..at]) + bytes
  {
    Memcpy(scratch, at, bytes);
    assert scratch[..at] == old(scratch[..at]);
    assert scratch[..at + |bytes|] == scratch[..at] + scratch[at..at + |bytes|];
  }

  /** One block: a cleared table, the fragment straight into the append buffer, and its length. */
  method CompressBlock(fragment: seq<byte>, writer: UncheckedByteArraySink) returns (length: nat)
    requires 0 < |fragment| <= BLOCK_SIZE
    requires writer.pos + FragmentReach(|fragment|) <= writer.dest.Length
    modifies writer, writer.dest
    ensures old(writer.pos) + length == writer.pos <= writer.dest.Length
    ensures Decodes(writer.dest[old(writer.pos)..writer.pos], [], fragment)
    ensures WithinRate(writer.pos - old(writer.pos), |fragment|, 60)
    ensures IsBlock(writer.dest[old(writer.pos)..writer.pos], fragment)
    ensures OnlyWrites(writer.dest, old(writer.pos), old(writer.pos) + FragmentReach(|fragment|))
  {
    hide Decodes, WithinRate, FragmentReach, HashesInto, HashFor, Pow2, Spells, PiecesOfBlock;
    var table, shift := HashTableFor(|fragment|);
    var (dest, at) := writer.GetAppendBuffer();
    var end := CompressFragment(fragment, dest, at, table, HashFor(shift));
    length := end - at;
    ghost var whole := dest[..];
    writer.Append(None, length);
    assert dest[at..end] == whole[at..end];
    assert forall i | 0 <= i < dest.Length :: dest[..][i] == whole[i];
  }

  /** A cleared table, and the shift that makes hashes fit it. */
  method HashTableFor(inputSize: nat) returns (table: array<uint16>, shift: nat)
    ensures fresh(table) && forall i | 0 <= i < table.Length :: table[i] == 0
    ensures HashesInto(HashFor(shift), table.Length) && shift == 32 - TableBits(inputSize, 8)
  {
    hide HashesInto, HashFor, TableBits, Pow2;
    ghost var k;
    table, k := GetHashTable(inputSize);
    TableSize(k);
    var log := Log2Floor(table.Length);
    LogOfPow2(log, k);
    shift := 32 - log;
    HashFits(k);
    Pow2Between(k);
    TableBitsAre(inputSize, 8, k);
  }

  /** `enc` is the block in the pieces of the reference, under the hash for a table of its size. */
  ghost predicate IsBlock(enc: seq<byte>, block: seq<byte>) {
    Spells(enc, block, BlockPieces(block))
  }

  ghost function BlockPieces(block: seq<byte>): seq<Piece> {
    PiecesOfBlock(block, HashFor(32 - TableBits(|block|, 8)))
  }

  /** `enc` is the input in blocks of full size up to the last, each in the pieces of the reference. */
  ghost predicate InBlocks(enc: seq<byte>, input: seq<byte>)
    decreases |input|
  {
    if input == [] then enc == []
    else
      var start := (|input| - 1) / BLOCK_SIZE * BLOCK_SIZE;
      var size := TotalSize(BlockPieces(input[start..]));
      && size <= |enc| && IsBlock(enc[|enc| - size..], input[start..])
      && InBlocks(enc[..|enc| - size], input[..start])
  }

  lemma {:induction false} OneMoreBlock(enc: seq<byte>, piece: seq<byte>, input: seq<byte>, done: nat, n: nat)
    requires done % BLOCK_SIZE == 0 && 0 < n <= BLOCK_SIZE && done + n <= |input|
    requires InBlocks(enc, input[..done]) && IsBlock(piece, input[done..done + n])
    ensures InBlocks(enc + piece, input[..done + n])
  {
    hide Spells, BlockPieces, TotalSize;
    var whole, size := input[..done + n], TotalSize(BlockPieces(input[done..done + n]));
    SpelledInSize(piece, input[done..done + n], BlockPieces(input[done..done + n]));
    assert (|whole| - 1) / BLOCK_SIZE * BLOCK_SIZE == done;
    assert whole[done..] == input[done..done + n] && whole[..done] == input[..done];
    var all := enc + piece;
    assert all[|all| - size..] == piece && all[..|all| - size] == enc;
  }

  /** What `Compress` writes: the length in the preamble, cut to 32 bits, and the blocks. */
  ghost predicate CompressedAs(stream: seq<byte>, input: seq<byte>) {
    var header := Varint.Groups(|input| % TWO32);
    header <= stream && InBlocks(stream[|header|..], input)
  }

  /** An input of one byte over and over shrinks to a sixth and a few bytes. */
  lemma {:induction false} UniformStream(stream: seq<byte>, input: seq<byte>)
    requires CompressedAs(stream, input) && forall i :: 0 <= i < |input| ==> input[i] == input[0]
    ensures 6 * |stream| <= |input| + 132
  {
    hide InBlocks, Varint.Groups;
    var header := Varint.Groups(|input| % TWO32);
    Varint.GroupsShort(|input| % TWO32);
    UniformBlocks(stream[|header|..], input);
  }

  lemma {:induction false} UniformOne(block: seq<byte>)
    requires forall i :: 0 <= i < |block| ==> block[i] == block[0]
    ensures 6 * TotalSize(BlockPieces(block)) <= |block| + if |block| >= 64 then 0 else 102
  {
    hide PiecesOfBlock, HashFor, TableBits, TotalSize;
    if |block| >= 64 {
      UniformShrinks(block, HashFor(32 - TableBits(|block|, 8)));
    } else {
      UniformRemains(block, HashFor(32 - TableBits(|block|, 8)));
    }
  }

  lemma LastBlock(n: nat)
    requires n > 0
    ensures var start := (n - 1) / BLOCK_SIZE * BLOCK_SIZE;
      && 0 <= start < n <= start + BLOCK_SIZE && start % BLOCK_SIZE == 0
      && (n % BLOCK_SIZE == 0 ==> n == start + BLOCK_SIZE)
  {
  }

  lemma {:induction false} UniformBlocks(enc: seq<byte>, input: seq<byte>)
    requires InBlocks(enc, input) && forall i :: 0 <= i < |input| ==> input[i] == input[0]
    ensures 6 * |enc| <= |input| + if |input| % BLOCK_SIZE == 0 then 0 else 102
    decreases |input|
  {
    hide IsBlock, BlockPieces, TotalSize;
    if input != [] {
      LastBlock(|input|);
      var start := (|input| - 1) / BLOCK_SIZE * BLOCK_SIZE;
      var block := input[start..];
      UniformBlocks(enc[..|enc| - TotalSize(BlockPieces(block))], input[..start]);
      forall i | 0 <= i < |block|
        ensures block[i] == block[0]
      {
        assert block[i] == input[start + i] && block[0] == input[start];
      }
      UniformOne(block);
    }
  }

  method WritePreamble(writer: UncheckedByteArraySink, n: uint32) returns (length: nat)
    requires writer.pos + 5 <= writer.dest.Length
    modifies writer, writer.dest
    ensures length <= 5 && writer.pos == old(writer.pos) + length
    ensures writer.dest[old(writer.pos)..writer.pos] == Varint.Groups(n)
    ensures OnlyWrites(writer.dest, old(writer.pos), writer.pos)
  {
    hide Varint.Groups;
    var ulength := new byte[5](_ => 0);
    Varint.GroupsShort(n);
    length := Varint.Encode32(ulength, 0, n);
    writer.Append(Some(ulength[..length]), length);
  }

  lemma TableSize(k: nat)
    requires 8 <= k <= 14
    ensures Pow2(k) <= 0x4000
  {
    Pow2Between(k);
  }

  /** `Compress`: the preamble, then one fragment per block.  A length of 2^32 or more does not fit the
      preamble, and the stream is then one no decoder accepts. */
  method Compress(reader: Source, writer: UncheckedByteArraySink) returns (written: nat)
    requires reader.Valid()
    requires writer.pos + MaxCompressedLength(reader.Available()) <= writer.dest.Length
    modifies reader, writer, writer.dest
    ensures reader.Valid() && reader.pos == |reader.data|
    ensures written == writer.pos - old(writer.pos) && old(writer.pos) + written <= writer.dest.Length
    ensures var input := old(reader.Left());
      Stands(writer.dest[old(writer.pos)..writer.pos], if |input| < TWO32 then Some(input) else None)
    ensures CompressedAs(writer.dest[old(writer.pos)..writer.pos], old(reader.Left()))
    ensures written <= MaxCompressedLength(|old(reader.Left())|)
    ensures OnlyWrites(writer.dest, old(writer.pos), old(writer.pos) + MaxCompressedLength(|old(reader.Left())|))
  {
    hide Varint.Groups, Varint.Parse, Decodes, Stands, FragmentReach, WithinRate, Blockwise, FullBlocks;
    hide MaxCompressedLength, Source.Counted, InBlocks;
    RoomForPreamble(reader.Available());
    ghost var input, start := reader.Left(), writer.pos;
    var total := reader.Available();
    var preamble := WritePreamble(writer, total % TWO32);
    ghost var header := writer.dest[start..writer.pos];
    var blocks;
    ghost var enc;
    blocks, enc := CompressBlocks(reader, writer, preamble, total);
    written := preamble + blocks;
    assert writer.dest[start..start + preamble] == header;
    assert writer.dest[start..writer.pos] == header + enc;
    assert (header + enc)[|header|..] == enc;
    StreamDecodes(writer.dest[start..writer.pos], header, enc, input, total % TWO32);
    TotalBound(preamble, |enc|, total);
  }

  /** The loop: block after block, behind a preamble of `p` bytes. */
  method CompressBlocks(reader: Source, writer: UncheckedByteArraySink, ghost p: nat, ghost total: nat)
    returns (written: nat, ghost enc: seq<byte>)
    requires reader.Valid() && total == reader.Available() && p <= 5 && p <= writer.pos
    requires writer.pos - p + MaxCompressedLength(total) <= writer.dest.Length
    modifies reader, writer, writer.dest
    ensures reader.Valid() && reader.Available() == 0
    ensures writer.pos == old(writer.pos) + written <= writer.dest.Length && |enc| == written
    ensures enc == writer.dest[old(writer.pos)..writer.pos]
    ensures Blockwise(enc, old(reader.Left()), total) && FullBlocks(|enc|, total, 0)
    ensures InBlocks(enc, old(reader.Left()))
    ensures OnlyWrites(writer.dest, old(writer.pos), old(writer.pos) - p + MaxCompressedLength(total))
  {
    hide FragmentReach, WithinRate, Blockwise, FullBlocks, MaxCompressedLength, Source.Counted, InBlocks;
    ghost var input, start := reader.Left(), writer.pos;
    var left := reader.Available();
    written, enc := 0, [];
    NothingDecoded(enc, input);
    WithinBound(p, total);
    while left > 0
      invariant reader.Valid() && left == reader.Available() && left <= total
      invariant reader.Left() == input[total - left..]
      invariant writer.pos == start + |enc| <= writer.dest.Length && written == |enc|
      invariant writer.dest[start..writer.pos] == enc
      invariant Blockwise(enc, input, total - left) && FullBlocks(|enc|, total - left, left)
      invariant InBlocks(enc, input[..total - left])
      invariant OnlyWrites(writer.dest, start, start - p + MaxCompressedLength(total))
      decreases left
    {
      var numToRead := if left < BLOCK_SIZE then left else BLOCK_SIZE;
      BlockRoom(p, |enc|, total - left, numToRead, total);
      BlockStart(|enc|, total - left, left);
      var length;
      ghost var piece;
      length, piece := CompressNext(reader, writer, numToRead, input, total - left, enc, start);
      written := written + length;
      BlockRate(|enc|, |piece|, total - left, left, numToRead);
      ghost var joined := enc + piece;
      assert |joined| == |enc| + |piece| && total - left + numToRead == total - (left - numToRead);
      enc := joined;
      left := left - numToRead;
    }
    assert input[..total] == input;
  }

  lemma BlockStart(written: nat, done: nat, left: nat)
    requires left > 0 && FullBlocks(written, done, left)
    ensures done % BLOCK_SIZE == 0
  {
  }

  lemma WithinBound(p: nat, total: nat)
    requires p <= 5
    ensures p <= MaxCompressedLength(total)
  {
  }

  /** One turn of the loop: the next fragment and its block, behind the blocks `enc` from `start` on. */
  method CompressNext(reader: Source, writer: UncheckedByteArraySink, n: nat,
                      ghost input: seq<byte>, ghost done: nat, ghost enc: seq<byte>, ghost start: nat)
    returns (length: nat, ghost piece: seq<byte>)
    requires reader.Valid() && 0 < n <= BLOCK_SIZE && done + n <= |input| && reader.Left() == input[done..]
    requires Blockwise(enc, input, done) && start <= writer.pos && writer.pos + FragmentReach(n) <= writer.dest.Length
    requires InBlocks(enc, input[..done]) && done % BLOCK_SIZE == 0
    requires writer.dest[start..writer.pos] == enc
    modifies reader, writer, writer.dest
    ensures reader.Valid() && reader.pos == old(reader.pos) + n && reader.Left() == input[done + n..]
    ensures writer.pos == old(writer.pos) + length <= writer.dest.Length && |piece| == length
    ensures writer.dest[start..writer.pos] == enc + piece
    ensures Blockwise(enc + piece, input, done + n) && WithinRate(|piece|, n, 60)
    ensures InBlocks(enc + piece, input[..done + n])
    ensures OnlyWrites(writer.dest, old(writer.pos), old(writer.pos) + FragmentReach(n))
  {
    hide FragmentReach, WithinRate, Blockwise, Decodes, Source.Counted, InBlocks, IsBlock;
    var fragment := ReadFragment(reader, n);
    Further(input, done, n);
    length := CompressBlock(fragment, writer);
    piece := writer.dest[old(writer.pos)..writer.pos];
    assert writer.dest[start..old(writer.pos)] == enc;
    assert writer.dest[start..writer.pos] == writer.dest[start..old(writer.pos)] + piece;
    AppendBlock(enc, piece, input, done, fragment);
    assert input[done..][..n] == input[done..done + n];
    OneMoreBlock(enc, piece, input, done, n);
  }

  // ---- the loop invariants of Compress ----

  ghost predicate Blockwise(enc: seq<byte>, input: seq<byte>, done: nat) {
    done <= |input| && Decodes(enc, [], input[..done])
  }

  lemma NothingDecoded(enc: seq<byte>, input: seq<byte>)
    requires enc == []
    ensures Blockwise(enc, input, 0) && FullBlocks(0, 0, |input|) && InBlocks(enc, input[..0])
  {
  }

  /** A block's fragment decodes behind the earlier blocks as it does alone. */
  lemma AppendBlock(enc: seq<byte>, piece: seq<byte>, input: seq<byte>, done: nat, fragment: seq<byte>)
    requires Blockwise(enc, input, done) && Decodes(piece, [], fragment)
    requires done + |fragment| <= |input| && fragment == input[done..][..|fragment|]
    ensures Blockwise(enc + piece, input, done + |fragment|)
  {
    hide Decodes;
    DecodesBehind(input[..done], piece, [], fragment);
    assert input[..done] + [] == input[..done] && fragment == input[done..done + |fragment|];
    assert input[..done] + fragment == input[..done + |fragment|];
    DecodesJoin(enc, piece, [], input[..done], input[..done + |fragment|]);
  }

  /** Until the last block every block is full, and a full block grows by less than a sixth. */
  ghost predicate FullBlocks(written: nat, done: nat, left: nat) {
    if left > 0 then done % BLOCK_SIZE == 0 && 6 * written <= 7 * done else 6 * written <= 7 * done + 6
  }

  lemma RoomForPreamble(n: nat)
    ensures MaxCompressedLength(n) >= 5
  {
  }

  lemma BlockRate(before: nat, piece: nat, done: nat, left: nat, n: nat)
    requires left > 0 && FullBlocks(before, done, left) && WithinRate(piece, n, 60)
    requires n == if left < BLOCK_SIZE then left else BLOCK_SIZE
    ensures FullBlocks(before + piece, done + n, left - n)
  {
  }

  lemma BlockRoom(header: nat, before: nat, done: nat, n: nat, total: nat)
    requires header <= 5 && 0 < n && done + n <= total && FullBlocks(before, done, total - done)
    ensures header + before + FragmentReach(n) <= MaxCompressedLength(total)
  {
  }

  lemma TotalBound(header: nat, body: nat, total: nat)
    requires header <= 5 && FullBlocks(body, total, 0)
    ensures header + body <= MaxCompressedLength(total)
  {
  }

  lemma LogOfPow2(log: int, k: nat)
    requires 0 <= log && Pow2(log) <= Pow2(k) < Pow2(log + 1)
    ensures log == k
  {
    if k < log {
      Pow2Strict(k, log);
    } else if log + 1 <= k {
      if log + 1 < k {
        Pow2Strict(log + 1, k);
      }
    }
  }

  lemma BlockwiseAll(body: seq<byte>, input: seq<byte>)
    requires Blockwise(body, input, |input|)
    ensures Decodes(body, [], input)
  {
    hide Decodes;
    assert input[..|input|] == input;
  }

  lemma FirstGroup()
    ensures Varint.Limit(0) == TWO32 && Varint.Weight(0) == 1
  {
  }

  lemma StreamDecodes(stream: seq<byte>, header: seq<byte>, body: seq<byte>, input: seq<byte>, n: uint32)
    requires stream == header + body && header == Varint.Groups(n)
    requires Blockwise(body, input, |input|)
    ensures Stands(stream, if |input| == n then Some(input) else None)
  {
    hide Varint.Groups, Varint.Parse, Decode, Blockwise;
    BlockwiseAll(body, input);
    PreambleParses(stream, header, n);
    assert stream[|header|..] == body;
  }

  lemma PreambleParses(stream: seq<byte>, header: seq<byte>, n: uint32)
    requires header <= stream && header == Varint.Groups(n)
    ensures Varint.Parse(stream, 0, |stream|, 0, 0) == Some((n, |header|))
  {
    hide Varint.Groups, Varint.Parse, Varint.Limit, Varint.Weight;
    FirstGroup();
    assert stream[0..|header|] == header;
    Varint.ParseGroups(n, stream, 0, |stream|, 0, 0);
  }
}
