/** When the program's decoder agrees with the format: it computes a literal's length in 32 bits, so the
    one length that needs 33 bits, 2^32, is taken for zero. */
module SnappyConformance {
  import opened Bytes
  import opened SnappyFormat
  import Varint

  /** By the format the largest length that can be stored denotes 2^32 bytes, to the program none. */
  lemma LongestLiteral(s: seq<byte>)
    requires [0xFC, 0xFF, 0xFF, 0xFF, 0xFF] <= s
    ensures ParseHeader(s, Unbounded) == Some(Header(5, Literal(TWO32)))
    ensures ParseHeader(s, Bits32) == Some(Header(5, Literal(0)))
  {
    assert s[..5] == [0xFC, 0xFF, 0xFF, 0xFF, 0xFF];
    assert Le(s, 1, 4) == 0xFFFF_FFFF;
  }

  /** Every other header means the same to both. */
  lemma OtherHeaders(s: seq<byte>)
    requires s != [] && ParseHeader(s, Unbounded).Some?
    ensures ParseHeader(s, Bits32).Some? && ParseHeader(s, Bits32).value.size == ParseHeader(s, Unbounded).value.size
    ensures ParseHeader(s, Unbounded) != ParseHeader(s, Bits32) <==>
      ParseHeader(s, Unbounded).value.element == Literal(TWO32)
  {
    hide Le;
  }

  /** Decoding `s` behind `out` meets that header where an element starts. */
  ghost predicate MeetsLongest(s: seq<byte>, out: seq<byte>)
    decreases |s|
  {
    && s != []
    && match ParseHeader(s, Unbounded)
       case None => false
       case Some(Header(size, Literal(len))) =>
         len == TWO32 || (|s| >= size + len && MeetsLongest(s[size + len..], out + s[size..size + len]))
       case Some(Header(size, Copy(offset, len))) =>
         0 < offset <= |out| && MeetsLongest(s[size..], CopyFrom(out, offset, len))
  }

  /** Elements decode alike as long as that header is not met. */
  lemma {:induction false} AlikeUnlessMet(s: seq<byte>, out: seq<byte>)
    requires !MeetsLongest(s, out)
    ensures Decode(s, out, Unbounded) == Decode(s, out, Bits32)
    decreases |s|
  {
    hide ParseHeader, CopyFrom;
    if s != [] {
      match ParseHeader(s, Unbounded) {
        case None =>
          SameCut(s);
        case Some(Header(size, Literal(len))) =>
          OtherHeaders(s);
          if |s| >= size + len {
            AlikeUnlessMet(s[size + len..], out + s[size..size + len]);
          }
        case Some(Header(size, Copy(offset, len))) =>
          OtherHeaders(s);
          if 0 < offset <= |out| {
            AlikeUnlessMet(s[size..], CopyFrom(out, offset, len));
          }
      }
    }
  }

  lemma SameCut(s: seq<byte>)
    requires s != [] && ParseHeader(s, Unbounded) == None
    ensures ParseHeader(s, Bits32) == None
  {
  }

  /** A stream with that header that the format accepts at all has at least 2^32 bytes of output. */
  lemma {:induction false} MetIsLong(s: seq<byte>, out: seq<byte>)
    requires MeetsLongest(s, out) && Decode(s, out, Unbounded).Some?
    ensures |Decode(s, out, Unbounded).value| >= TWO32
    decreases |s|
  {
    hide ParseHeader, CopyFrom;
    match ParseHeader(s, Unbounded)
    case Some(Header(size, Literal(len))) =>
      if len == TWO32 {
        DecodeExtends(s[size + len..], out + s[size..size + len], Unbounded);
      } else {
        MetIsLong(s[size + len..], out + s[size..size + len]);
      }
    case Some(Header(size, Copy(offset, len))) =>
      MetIsLong(s[size..], CopyFrom(out, offset, len));
  }

  /** The same for a whole stream. */
  ghost predicate StreamMeetsLongest(stream: seq<byte>) {
    match Varint.Parse(stream, 0, |stream|, 0, 0)
    case None => false
    case Some((n, h)) => MeetsLongest(stream[h..], [])
  }

  /** The program's decoder departs from the format exactly on the streams that have that header and that it
      accepts: those, the format rejects. */
  lemma Conforms(stream: seq<byte>)
    ensures Uncompress(stream, Unbounded) == Uncompress(stream, Bits32) <==>
      !(Uncompress(stream, Bits32).Some? && StreamMeetsLongest(stream))
  {
    if StreamMeetsLongest(stream) {
      MetIsRejected(stream);
    } else {
      StreamAlike(stream);
    }
  }

  lemma StreamAlike(stream: seq<byte>)
    requires !StreamMeetsLongest(stream)
    ensures Uncompress(stream, Unbounded) == Uncompress(stream, Bits32)
  {
    hide Varint.Parse, Decode, MeetsLongest;
    match Varint.Parse(stream, 0, |stream|, 0, 0)
    case None =>
    case Some((n, h)) => AlikeUnlessMet(stream[h..], []);
  }

  lemma MetIsRejected(stream: seq<byte>)
    requires StreamMeetsLongest(stream)
    ensures Uncompress(stream, Unbounded) == None
  {
    hide Varint.Parse, Decode, MeetsLongest;
    var (n, h) := Varint.Parse(stream, 0, |stream|, 0, 0).value;
    FirstWeight();
    Varint.ParsedFits(stream, 0, |stream|, 0, 0);
    if Decode(stream[h..], [], Unbounded).Some? {
      MetIsLong(stream[h..], []);
    }
  }

  lemma FirstWeight()
    ensures Varint.Weight(0) == 1
  {
  }

  /** In one direction there is no exception: what the format accepts, the program decodes to the same. */
  lemma AcceptedByFormat(stream: seq<byte>)
    requires Uncompress(stream, Unbounded).Some?
    ensures Uncompress(stream, Bits32) == Uncompress(stream, Unbounded)
  {
    hide Uncompress;
    if StreamMeetsLongest(stream) {
      MetIsRejected(stream);
    } else {
      StreamAlike(stream);
    }
  }

  /** In the other there is: an announced length of 0 and those five bytes. */
  lemma AcceptedByProgramAlone()
    ensures var stream := [0, 0xFC, 0xFF, 0xFF, 0xFF, 0xFF];
      Uncompress(stream, Bits32) == Some([]) && Uncompress(stream, Unbounded) == None
  {
    hide ParseHeader;
    var body: seq<byte> := [0xFC, 0xFF, 0xFF, 0xFF, 0xFF];
    var stream: seq<byte> := [0] + body;
    assert stream == [0, 0xFC, 0xFF, 0xFF, 0xFF, 0xFF];
    assert stream[1..] == body && body[5..] == [] && body[5..5] == [];
    LongestLiteral(body);
    assert Varint.Parse(stream, 0, |stream|, 0, 0) == Some((0, 1));
    var nothing: seq<byte> := [];
    assert nothing + body[5..5] == nothing;
    assert Decode(body, nothing, Bits32) == Decode(body[5..], nothing, Bits32) == Some(nothing);
    assert Decode(body, [], Unbounded) == None;
  }
}
