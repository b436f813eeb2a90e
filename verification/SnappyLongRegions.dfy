/** What becomes of a stream whose body the source shows as one region of 2^32 bytes or more. */
module SnappyLongRegions {
  import opened Bytes
  import opened Snappy
  import opened SnappyCompress
  import opened SnappyDecompress
  import opened SnappyEmit
  import opened SnappyFormat
  import opened SnappySource
  import Varint

  /** The bytes of the body that are read a second time: all but as many as were counted. */
  ghost function ReadAgain(stream: seq<byte>): (s: seq<byte>) {
    match Varint.Parse(stream, 0, |stream|, 0, 0)
    case None => []
    case Some((n, h)) => if |stream[h..]| % TWO32 < 5 then [] else stream[h..][|stream[h..]| % TWO32..]
  }

  /** A good stream whose body is one region survives if and only if the bytes read again decode to
      nothing. */
  lemma OneRegion(stream: seq<byte>, out: seq<byte>)
    requires Uncompress(stream, Bits32) == Some(out)
    ensures var (n, h) := Varint.Parse(stream, 0, |stream|, 0, 0).value;
      Read(stream, |stream| - h) ==
        if Decode(ReadAgain(stream), out, Bits32) == Some(out) then Some(out) else None
  {
    hide Varint.Parse, Decode, Reread;
    var (n, h) := Varint.Parse(stream, 0, |stream|, 0, 0).value;
    var body, again := stream[h..], ReadAgain(stream);
    WholeReread(body);
    DecodeConcat(body, again, [], Bits32);
    DecodeExtends(again, out, Bits32);
    match Decode(again, out, Bits32)
    case None =>
    case Some(more) =>
      if |more| == |out| {
        assert more == more[..|out|] == out;
      }
  }

  lemma WholeReread(body: seq<byte>)
    ensures Reread(body, |body|) == body + if |body| % TWO32 < 5 then [] else body[|body| % TWO32..]
  {
    assert body + [] == body && body[..|body|] == body;
  }

  // ---- a stream that is refused ----

  const SHORT: seq<byte> := [0, 0, 0, 0]
  /** As many bytes as make a literal element of 2^32. */
  const REST: nat := TWO32 - 5

  function Zeros(n: nat): (s: seq<byte>)
    ensures |s| == n
  {
    seq(n, _ => 0 as byte)
  }

  /** A literal of four bytes, 5 bytes long as an element. */
  function FirstElement(): seq<byte> { [0x0C] + SHORT }

  /** One that takes 2^32 bytes as an element. */
  function SecondElement(): seq<byte> { [0xFC] + [0xFA, 0xFF, 0xFF, 0xFF] + Zeros(REST) }

  /** Their lengths together, 2^32 - 1, and then both. */
  function GoodStream(): seq<byte> { Varint.Groups(TWO32 - 1) + (FirstElement() + SecondElement()) }

  lemma FirstIsLiteral()
    ensures IsLiteral(FirstElement(), SHORT)
  {
    TaggedLiteral(FirstElement(), SHORT);
  }

  lemma SecondIsLiteral()
    ensures IsLiteral(SecondElement(), Zeros(REST)) && |SecondElement()| == TWO32
  {
    hide IsLiteral;
    var trailer: seq<byte> := [0xFA, 0xFF, 0xFF, 0xFF];
    assert Le(trailer, 0, 4) == 0xFFFF_FFFA;
    LongLiteral(SecondElement(), Zeros(REST), trailer);
  }

  lemma GoodStreamStands()
    ensures Stands(GoodStream(), Some(SHORT + Zeros(REST)))
    ensures var p := Varint.Parse(GoodStream(), 0, |GoodStream()|, 0, 0);
      p == Some((TWO32 - 1, 5)) && GoodStream()[5..] == FirstElement() + SecondElement()
  {
    hide IsLiteral, Stands, Decodes, Varint.Groups, Varint.Parse, Zeros, FirstElement, SecondElement;
    var header, body, out := Varint.Groups(TWO32 - 1), FirstElement() + SecondElement(), SHORT + Zeros(REST);
    FirstIsLiteral();
    SecondIsLiteral();
    LiteralDecodes(FirstElement(), SHORT, []);
    LiteralDecodes(SecondElement(), Zeros(REST), SHORT);
    assert [] + SHORT == SHORT && out[..|out|] == out;
    DecodesJoin(FirstElement(), SecondElement(), [], SHORT, out);
    StreamDecodes(GoodStream(), header, body, out, TWO32 - 1);
    PreambleParses(GoodStream(), header, TWO32 - 1);
    Varint.GroupsOf(TWO32 - 1);
    assert GoodStream()[|header|..] == body;
  }

  /** The format and the program's own decoder take the stream for 2^32 - 1 bytes, but the program refuses it
      when it is shown the preamble byte by byte and then the whole body as one region: having used that up,
      it skips only 5 bytes, and reads the second element again. */
  method GoodStreamRefused() returns (ok: bool)
    ensures Uncompress(GoodStream(), Unbounded).Some? && Uncompress(GoodStream(), Bits32).Some? && !ok
  {
    hide Zeros, GoodStream, Varint.Parse, Varint.Groups, Uncompress, Read, Source.LongChunks;
    GoodStreamStands();
    var stream := GoodStream();
    var reader := new Source(stream, k => if k == 5 then TWO32 + 5 else 1);
    assert reader.Left() == stream;
    ghost var first := FirstRegion(reader, 0, stream);
    WholeBody(reader);
    ok := IsValidCompressed(reader);
    reader.OneLongChunk(reader.peeks, 5);
    SecondReadAgain();
  }

  lemma WholeBody(reader: Source)
    requires reader.data == GoodStream() && forall k :: reader.chunk(k) == if k == 5 then TWO32 + 5 else 1
    ensures FirstRegion(reader, 0, GoodStream()) == |GoodStream()| - 5 == TWO32 + 5
  {
    hide GoodStream, SecondElement, Varint.Parse;
    GoodStreamStands();
    SecondIsLiteral();
  }

  lemma SecondReadAgain()
    ensures Read(GoodStream(), |GoodStream()| - 5) == None
  {
    hide GoodStream, FirstElement, SecondElement, IsLiteral, Varint.Parse, Uncompress, Stands, Decodes, Read, Zeros;
    var out := SHORT + Zeros(REST);
    GoodStreamStands();
    SecondIsLiteral();
    StandsAlone(GoodStream(), out);
    OneRegion(GoodStream(), out);
    SecondBehindFirst(GoodStream()[5..]);
    LiteralDecodes(SecondElement(), Zeros(REST), out);
    NotTheSame(SecondElement(), out, Zeros(REST));
  }

  lemma SecondBehindFirst(body: seq<byte>)
    requires body == FirstElement() + SecondElement() && |SecondElement()| == TWO32
    ensures |body| % TWO32 == 5 && body[5..] == SecondElement()
  {
    hide SecondElement;
  }

  lemma StandsAlone(stream: seq<byte>, out: seq<byte>)
    requires Stands(stream, Some(out))
    ensures Uncompress(stream, Bits32) == Some(out)
  {
  }

  lemma NotTheSame(s: seq<byte>, out: seq<byte>, more: seq<byte>)
    requires Decodes(s, out, out + more) && more != []
    ensures Decode(s, out, Bits32) != Some(out)
  {
    assert |out + more| > |out|;
  }
}
