/** The codec's entry points: decompression into each kind of destination, and the round trip. */
module Snappy {
  import opened Bytes
  import opened SnappyFormat
  import opened SnappySource
  import opened SnappyArrayWriter
  import opened SnappyIOVecWriter
  import opened SnappyScatteredWriter
  import opened SnappyWriter
  import opened SnappyDecompress
  import opened SnappyCompress
  import Buffers
  import Varint

  /** The preamble, read a byte at a time straight off the source. */
  method ReadUncompressedLength(reader: Source) returns (r: Option<uint32>)
    requires reader.Valid()
    modifies reader
    ensures reader.Valid() && reader.overlong >= old(reader.overlong)
    ensures match Varint.Parse(old(reader.Left()), 0, |old(reader.Left())|, 0, 0)
            case None => r == None
            case Some((n, h)) =>
              r == Some(n) && reader.Left() == old(reader.Left())[h..] && reader.peeks == old(reader.peeks) + h
  {
    hide Varint.Parse, Varint.Weight, Source.Counted, Source.Left, Source.RegionLength, Long;
    ghost var s := reader.Left();
    ghost var read := 0;
    var result: nat, shift := 0, 0;
    while true
      invariant reader.Valid() && read <= |s| && reader.Left() == s[read..]
      invariant reader.peeks == old(reader.peeks) + read && reader.overlong >= old(reader.overlong)
      invariant 0 <= shift <= 35 && shift == 7 * read
      invariant Varint.Parse(s, 0, |s|, 0, 0) == Varint.Parse(s, read, |s|, read, result)
      decreases 35 - shift
    {
      if shift >= 32 {
        Varint.ParseEnd(s, read, |s|, read, result);
        return None;
      }
      Varint.ParseStep(s, read, |s|, read, result);
      var region := reader.Peek();
      if |region| == 0 {
        return None;
      }
      var c := region[0];
      assert c == s[read];
      reader.Skip(1);
      var val := c % 128;
      Varint.ShiftLoss(val, read);
      var weight := Varint.Weight(shift / 7);
      if weight * val % TWO32 / weight != val {
        return None;
      }
      result := result + weight * val;
      read := read + 1;
      if c < 128 {
        Varint.ParsedFits(s, 0, |s|, 0, 0);
        return Some(result);
      }
      shift := shift + 7;
    }
  }

  /** What a destination must offer: it is empty, its memory is its own, and when the preamble parses
      there is room for the length it announces. */
  ghost predicate Destination(writer: Writer, reader: Source, stream: seq<byte>)
    reads writer.Repr()
  {
    && reader !in writer.Repr()
    && match Varint.Parse(stream, 0, |stream|, 0, 0)
       case None => true
       case Some((n, h)) => writer.Ready(n)
  }

  /** Length of the region that a source shows behind the preamble of `stream`, when `peeks` is the number
      of regions shown before the stream. */
  ghost function FirstRegion(reader: Source, peeks: nat, stream: seq<byte>): (n: nat)
    ensures var p := Varint.Parse(stream, 0, |stream|, 0, 0); p.Some? ==> n <= |stream| - p.value.1
  {
    match Varint.Parse(stream, 0, |stream|, 0, 0)
    case None => 0
    case Some((n, h)) => reader.RegionLength(peeks + h, |stream| - h)
  }

  /** What the program makes of a stream whose body it is shown with a first region of `first` bytes. */
  ghost function Read(stream: seq<byte>, first: nat): (r: Option<seq<byte>>)
    requires var p := Varint.Parse(stream, 0, |stream|, 0, 0); p.Some? ==> first <= |stream| - p.value.1
  {
    match Varint.Parse(stream, 0, |stream|, 0, 0)
    case None => None
    case Some((n, h)) =>
      match Decode(Reread(stream[h..], first), [], Bits32)
      case None => None
      case Some(out) => if |out| == n then Some(out) else None
  }

  /** Unless that region has 2^32 bytes or more, it is what the stream stands for. */
  lemma ReadShort(stream: seq<byte>, first: nat)
    requires var p := Varint.Parse(stream, 0, |stream|, 0, 0); p.Some? ==> first <= |stream| - p.value.1
    requires first < TWO32
    ensures Read(stream, first) == Uncompress(stream, Bits32)
  {
    hide Varint.Parse, Decode, Reread;
    match Varint.Parse(stream, 0, |stream|, 0, 0)
    case None =>
    case Some((n, h)) => ReadOnce(stream[h..], first);
  }

  /** Preamble, elements and the final length check, into any destination.  As long as no region of 2^32
      bytes or more is shown, the verdict is the reference's for the whole input, and so is the output on
      acceptance; if the first one behind the preamble is the only such region, both are what `Read` says. */
  method InternalUncompress(reader: Source, writer: Writer) returns (ok: bool)
    requires reader.Valid() && Destination(writer, reader, reader.Left())
    modifies reader, writer.Repr()
    ensures reader.Valid() && fresh(writer.Repr() - old(writer.Repr()))
    ensures reader.overlong == old(reader.overlong) ==>
      && (ok <==> Uncompress(old(reader.Left()), Bits32).Some?)
      && (ok ==> writer.Valid() && Some(writer.Out()) == Uncompress(old(reader.Left()), Bits32))
    ensures var first := FirstRegion(reader, old(reader.peeks), old(reader.Left()));
      && reader.overlong >= old(reader.overlong) + Long(first)
      && (reader.overlong == old(reader.overlong) + Long(first) ==>
        && (ok <==> Read(old(reader.Left()), first).Some?)
        && (ok ==> writer.Valid() && Some(writer.Out()) == Read(old(reader.Left()), first)))
  {
    hide Varint.Parse, Decode, Writer.Valid, Writer.Out, Writer.Limit, Writer.Ready, Uncompress, Accepts, Read;
    hide Source.Counted, Source.RegionLength, Reread;
    ghost var stream, peeks := reader.Left(), reader.peeks;
    ghost var first := FirstRegion(reader, peeks, stream);
    var length := ReadUncompressedLength(reader);
    if length == None {
      NoPreamble(stream, first);
      return false;
    }
    var decompressor := new Decompressor(reader);
    Verdict(stream, reader.Left(), length.value, first);
    ok := InternalUncompressAllTags(decompressor, writer, length.value);
    if first < TWO32 {
      ReadShort(stream, first);
    }
  }

  /** Everything behind the preamble. */
  method InternalUncompressAllTags(decompressor: Decompressor, writer: Writer, n: uint32) returns (ok: bool)
    requires decompressor.Valid() && !decompressor.eof && !decompressor.endless
    requires decompressor.ip == decompressor.ipLimit
    requires writer.Ready(n) && decompressor.Apart(writer)
    modifies decompressor, decompressor.reader, decompressor.scratch, writer.Repr()
    ensures decompressor.reader.Valid() && fresh(writer.Repr() - old(writer.Repr()))
    ensures ok ==> writer.Valid()
    ensures var s, reader := old(decompressor.Pending()), decompressor.reader;
      var first := reader.RegionLength(old(reader.peeks), |s|);
      && reader.overlong >= old(reader.overlong) + Long(first)
      && (reader.overlong == old(reader.overlong) + Long(first) ==>
        && (ok <==> Accepts(Reread(s, first), n))
        && (ok ==> Decode(Reread(s, first), [], Bits32) == Some(writer.Out())))
  {
    hide Decode, Decompressor.Pending, Decompressor.Valid, Writer.Valid, Writer.Out, Writer.Limit, Writer.Ready;
    hide Source.Valid, Source.RegionLength, Reread;
    ghost var ahead := decompressor.Ahead();
    writer.SetExpectedLength(n);
    decompressor.DecompressAllTags(writer);
    if !decompressor.eof {
      return false;
    }
    ok := writer.CheckLength();
  }

  /** The elements decode, and to as many bytes as announced. */
  ghost predicate Accepts(body: seq<byte>, n: uint32) {
    Decode(body, [], Bits32).Some? && |Decode(body, [], Bits32).value| == n
  }

  lemma NoPreamble(stream: seq<byte>, first: nat)
    requires Varint.Parse(stream, 0, |stream|, 0, 0) == None
    ensures Uncompress(stream, Bits32) == None && Read(stream, first) == None
  {
  }

  lemma Verdict(stream: seq<byte>, body: seq<byte>, n: uint32, first: nat)
    requires var p := Varint.Parse(stream, 0, |stream|, 0, 0); p.Some? && p.value.0 == n && body == stream[p.value.1..]
    requires first <= |body|
    ensures var s := Reread(body, first); Read(stream, first) == if Accepts(s, n) then Decode(s, [], Bits32) else None
  {
    hide Varint.Parse, Decode, Reread;
  }

  // ---- the four destinations ----

  /** Into a flat buffer that is large enough for the announced length. */
  method RawUncompress(reader: Source, uncompressed: array<byte>) returns (ok: bool)
    requires reader.Valid()
    requires Announces(reader.Left()) <= uncompressed.Length
    modifies reader, uncompressed
    ensures reader.Valid()
    ensures reader.overlong == old(reader.overlong) ==>
      && (ok <==> Uncompress(old(reader.Left()), Bits32).Some?)
      && (ok ==> Holds(uncompressed[..], Uncompress(old(reader.Left()), Bits32).value))
  {
    hide Varint.Parse, Decode, Uncompress, Read, FirstRegion, Source.Valid;
    var w := new ArrayWriter(uncompressed, 0);
    ok := InternalUncompress(reader, Flat(w));
    if ok && reader.overlong == old(reader.overlong) {
      assert w.Out() == uncompressed[..w.op] == uncompressed[..][..w.op];
    }
  }

  /** The front of `memory` is `out`. */
  ghost predicate Holds(memory: seq<byte>, out: seq<byte>) {
    |out| <= |memory| && memory[..|out|] == out
  }

  /** The length a stream announces; zero when its preamble is malformed. */
  ghost function Announces(stream: seq<byte>): nat {
    match Varint.Parse(stream, 0, |stream|, 0, 0)
    case None => 0
    case Some((n, h)) => n
  }

  /** Into a list of buffers: same verdict, and the buffers one behind the other hold the same bytes. */
  method RawUncompressToIOVec(reader: Source, iov: seq<array<byte>>) returns (ok: bool)
    requires reader.Valid()
    requires |iov| >= 1 && Buffers.Distinct(iov) && Announces(reader.Left()) <= Buffers.Start(iov, |iov|)
    modifies reader, iov
    ensures reader.Valid()
    ensures reader.overlong == old(reader.overlong) ==>
      && (ok <==> Uncompress(old(reader.Left()), Bits32).Some?)
      && (ok ==> Holds(Buffers.Concatenated(iov, |iov|), Uncompress(old(reader.Left()), Bits32).value))
  {
    hide Varint.Parse, Decode, Uncompress, Read, FirstRegion, Source.Valid, Buffers.Start, Buffers.Concatenated;
    var w := new IOVecWriter(iov);
    ok := InternalUncompress(reader, IOVec(w));
    if ok && reader.overlong == old(reader.overlong) {
      w.OutputIsConcatenation();
    }
  }

  /** Into a sink: at one go when it offers a flat buffer for the announced length, otherwise block by
      block.  Every piece but the last is a full block, and together they are the output. */
  method UncompressToSink(reader: Source, sink: PieceSink) returns (ok: bool)
    requires reader.Valid() && sink.pieces == []
    modifies reader, sink
    ensures reader.Valid()
    ensures reader.overlong == old(reader.overlong) ==>
      && (ok <==> Uncompress(old(reader.Left()), Bits32).Some?)
      && (ok ==> Some(Flattened(sink.pieces)) == Uncompress(old(reader.Left()), Bits32))
      && (ok ==> forall i | 0 <= i < |sink.pieces| - 1 :: |sink.pieces[i]| == BLOCK_SIZE)
  {
    hide Varint.Parse, Decode, Uncompress, Read, Reread, Source.Counted, Source.RegionLength, Flattened, Accepts;
    ghost var stream, peeks := reader.Left(), reader.peeks;
    ghost var first := FirstRegion(reader, peeks, stream);
    var length := ReadUncompressedLength(reader);
    if length == None {
      NoPreamble(stream, first);
      return false;
    }
    var decompressor := new Decompressor(reader);
    Verdict(stream, reader.Left(), length.value, first);
    if first < TWO32 {
      ReadShort(stream, first);
    }
    ok := UncompressTo(decompressor, sink, length.value);
  }

  /** The elements, behind the preamble that announced `n` bytes. */
  method UncompressTo(decompressor: Decompressor, sink: PieceSink, n: uint32) returns (ok: bool)
    requires decompressor.Valid() && !decompressor.eof && !decompressor.endless
    requires decompressor.ip == decompressor.ipLimit && sink.pieces == []
    modifies decompressor, decompressor.reader, decompressor.scratch, sink
    ensures decompressor.reader.Valid()
    ensures var s, reader := old(decompressor.Pending()), decompressor.reader;
      var first := reader.RegionLength(old(reader.peeks), |s|);
      && reader.overlong >= old(reader.overlong) + Long(first)
      && (reader.overlong == old(reader.overlong) + Long(first) ==>
        && (ok <==> Accepts(Reread(s, first), n))
        && (ok ==> Decode(Reread(s, first), [], Bits32) == Some(Flattened(sink.pieces)))
        && (ok ==> forall i | 0 <= i < |sink.pieces| - 1 :: |sink.pieces[i]| == BLOCK_SIZE))
  {
    hide Decode, Decompressor.Pending, Decompressor.Valid, Source.Valid, Source.RegionLength, Reread, Flattened;
    hide Accepts;
    if sink.offer >= n {
      var flat := new byte[sink.offer](_ => 0);
      var w := new ArrayWriter(flat, 0);
      ok := InternalUncompressAllTags(decompressor, Flat(w), n);
      if ok {
        sink.AppendAndTakeOwnership(flat[..w.op]);
        OnePiece(sink.pieces);
      }
    } else {
      var w := new ScatteredWriter();
      ok := InternalUncompressAllTags(decompressor, Scattered(w), n);
      if ok {
        w.Flush(sink);
      }
    }
  }

  lemma OnePiece(pieces: seq<seq<byte>>)
    requires |pieces| == 1
    ensures Flattened(pieces) == pieces[0]
  {
    assert pieces[..0] == [] && Flattened(pieces[..0]) == [];
  }

  /** Into nothing: the verdict alone. */
  method IsValidCompressed(reader: Source) returns (ok: bool)
    requires reader.Valid()
    modifies reader
    ensures reader.Valid()
    ensures reader.overlong == old(reader.overlong) ==> (ok <==> Uncompress(old(reader.Left()), Bits32).Some?)
    ensures var first := FirstRegion(reader, old(reader.peeks), old(reader.Left()));
      && reader.overlong >= old(reader.overlong) + Long(first)
      && (reader.overlong == old(reader.overlong) + Long(first) ==> (ok <==> Read(old(reader.Left()), first).Some?))
  {
    hide Varint.Parse, Decode, Uncompress, Read, FirstRegion, Source.Valid;
    var w := new Validator();
    ok := InternalUncompress(reader, Validating(w));
  }

  // ---- the round trip ----

  /** Into a buffer as large as `MaxCompressedLength` says; returns how much of it is used. */
  method RawCompress(reader: Source, compressed: array<byte>) returns (length: nat)
    requires reader.Valid() && compressed.Length >= MaxCompressedLength(reader.Available())
    modifies reader, compressed
    ensures length <= compressed.Length
    ensures var input := old(reader.Left()); Stands(compressed[..length], if |input| < TWO32 then Some(input) else None)
    ensures CompressedAs(compressed[..length], old(reader.Left()))
  {
    hide Stands, MaxCompressedLength, CompressedAs;
    var writer := new UncheckedByteArraySink(compressed);
    length := Compress(reader, writer);
    assert compressed[0..length] == compressed[..length];
  }

  /** What a source cut as `cuts` says compresses to. */
  method Compressed(input: seq<byte>, cuts: nat -> nat) returns (stream: seq<byte>)
    requires |input| < TWO32
    ensures Stands(stream, Some(input)) && Announces(stream) == |input| && |stream| <= MaxCompressedLength(|input|)
  {
    hide Stands, Announces, MaxCompressedLength;
    var compressed := new byte[MaxCompressedLength(|input|)](_ => 0);
    var reader := new Source(input, cuts);
    assert reader.Left() == input;
    var length := RawCompress(reader, compressed);
    stream := compressed[..length];
    AcceptedLength(stream, input);
  }

  /** `cuts` shows no region of 2^32 bytes or more of the stream. */
  ghost predicate CutsFit(stream: seq<byte>, cuts: nat -> nat) {
    |stream| < TWO32 || forall k :: cuts(k) < TWO32
  }

  method SourceOf(stream: seq<byte>, cuts: nat -> nat) returns (back: Source)
    ensures fresh(back) && back.Valid() && back.Left() == stream && back.overlong == 0
    ensures back.data == stream && back.chunk == cuts
  {
    back := new Source(stream, cuts);
    assert stream[0..] == stream;
  }

  /** Any input of less than 2^32 bytes, however its source cuts it, compresses into the space that
      `MaxCompressedLength` promises, to a stream that by the format stands for it; and it decompresses to
      itself, however the stream is cut into regions of less than 2^32 bytes. */
  method RoundTrip(input: seq<byte>, cuts: nat -> nat, cutsBack: nat -> nat)
    returns (stream: seq<byte>, output: seq<byte>)
    requires |input| < TWO32
    ensures Uncompress(stream, Unbounded) == Some(input) && |stream| <= MaxCompressedLength(|input|)
    ensures CutsFit(stream, cutsBack) ==> output == input
  {
    hide Varint.Parse, Decode, Uncompress, Announces, MaxCompressedLength, Source.Counted;
    stream := Compressed(input, cuts);
    var back := SourceOf(stream, cutsBack);
    var uncompressed := new byte[|input|](_ => 0);
    var ok := RawUncompress(back, uncompressed);
    output := uncompressed[..];
    if CutsFit(stream, cutsBack) {
      NeverLong(back);
      assert output[..|input|] == output;
    }
  }

  /** The same into buffers of any sizes that together have the room. */
  method RoundTripToBuffers(input: seq<byte>, cuts: nat -> nat, cutsBack: nat -> nat, iov: seq<array<byte>>)
    returns (stream: seq<byte>, ok: bool)
    requires |input| < TWO32 && |iov| >= 1 && Buffers.Distinct(iov) && |input| <= Buffers.Start(iov, |iov|)
    modifies iov
    ensures Uncompress(stream, Unbounded) == Some(input)
    ensures CutsFit(stream, cutsBack) ==> ok && Holds(Buffers.Concatenated(iov, |iov|), input)
  {
    hide Varint.Parse, Decode, Uncompress, Announces, Source.Counted, Buffers.Start, Buffers.Concatenated;
    stream := Compressed(input, cuts);
    var back := SourceOf(stream, cutsBack);
    ok := RawUncompressToIOVec(back, iov);
    if CutsFit(stream, cutsBack) {
      NeverLong(back);
    }
  }

  /** And into a sink, whatever flat buffer it offers. */
  method RoundTripToSink(input: seq<byte>, cuts: nat -> nat, cutsBack: nat -> nat, offer: nat)
    returns (stream: seq<byte>, output: seq<byte>)
    requires |input| < TWO32
    ensures Uncompress(stream, Unbounded) == Some(input)
    ensures CutsFit(stream, cutsBack) ==> output == input
  {
    hide Varint.Parse, Decode, Uncompress, Announces, Source.Counted, Flattened;
    stream := Compressed(input, cuts);
    var back := SourceOf(stream, cutsBack);
    var sink := new PieceSink(offer);
    var ok := UncompressToSink(back, sink);
    output := Flattened(sink.pieces);
    if CutsFit(stream, cutsBack) {
      NeverLong(back);
    }
  }

  lemma NeverLong(back: Source)
    requires back.Valid() && CutsFit(back.data, back.chunk)
    ensures back.overlong == 0
  {
    if |back.data| >= TWO32 {
      back.OneLongChunk(back.peeks, back.peeks);
    }
  }

  lemma AcceptedLength(stream: seq<byte>, out: seq<byte>)
    requires Stands(stream, Some(out))
    ensures Announces(stream) == |out|
  {
    hide Varint.Parse, Decode;
  }
}
