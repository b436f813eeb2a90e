/** The Snappy stream format as a reference: one element at a time, one byte at a time.  The header
    layouts are those of sections 1, 2.1 and 2.2 of Google's "Snappy compressed format description". */
module SnappyFormat {
  import opened Bytes
  import Varint

  const BLOCK_SIZE := 0x1_0000
  const MAXIMUM_TAG_LENGTH := 5

  datatype Element = Literal(len: nat) | Copy(offset: nat, len: nat)

  /** An element whose header (tag byte and trailer) takes `size` bytes. */
  datatype Header = Header(size: nat, element: Element)

  /** How a literal's length is computed from the number stored for it, which is one less: as the format
      says, or in the program's 32 bits. */
  datatype Width = Unbounded | Bits32
  {
    ghost function Length(stored: nat): nat {
      if Bits32? then (stored + 1) % TWO32 else stored + 1
    }
  }

  /** Bytes of the element at `tag` up to and including its trailer. */
  ghost function HeaderSize(tag: byte): (n: nat)
    ensures 1 <= n <= MAXIMUM_TAG_LENGTH
  {
    match tag % 4
    case 0 => if tag / 4 < 60 then 1 else tag / 4 - 58
    case 1 => 2
    case 2 => 3
    case _ => 5
  }

  /** The header at the front of `s`, if all of it is there. */
  ghost function ParseHeader(s: seq<byte>, width: Width): (h: Option<Header>)
    requires |s| > 0
    ensures h.Some? <==> |s| >= HeaderSize(s[0])
    ensures h.Some? ==> h.value.size == HeaderSize(s[0])
  {
    var size := HeaderSize(s[0]);
    if |s| < size then None
    else
      var up := s[0] / 4;
      Some(Header(size,
        match s[0] % 4
        case 0 => if up < 60 then Literal(up + 1) else Literal(width.Length(Le(s, 1, size - 1)))
        case 1 => Copy((s[0] as int) / 32 * 0x100 + s[1], 4 + up % 8)
        case 2 => Copy(Le(s, 1, 2), up + 1)
        case _ => Copy(Le(s, 1, 4), up + 1)))
  }

  /** Appends `len` bytes, each read `offset` back from the end as it grows. */
  ghost function CopyFrom(out: seq<byte>, offset: nat, len: nat): (r: seq<byte>)
    requires 0 < offset <= |out|
    ensures |r| == |out| + len && r[..|out|] == out
    decreases len
  {
    if len == 0 then out else CopyFrom(out + [out[|out| - offset]], offset, len - 1)
  }

  /** Decodes a sequence of elements behind the output `out` already there. */
  ghost function Decode(s: seq<byte>, out: seq<byte>, width: Width): (r: Option<seq<byte>>)
    decreases |s|
  {
    if s == [] then Some(out)
    else
      match ParseHeader(s, width)
      case None => None
      case Some(Header(size, Literal(len))) =>
        if |s| < size + len then None else Decode(s[size + len..], out + s[size..size + len], width)
      case Some(Header(size, Copy(offset, len))) =>
        if offset == 0 || offset > |out| then None else Decode(s[size..], CopyFrom(out, offset, len), width)
  }

  /** A whole stream: the preamble's length, then elements that produce exactly that many bytes. */
  ghost function Uncompress(stream: seq<byte>, width: Width): (r: Option<seq<byte>>) {
    match Varint.Parse(stream, 0, |stream|, 0, 0)
    case None => None
    case Some((n, h)) =>
      match Decode(stream[h..], [], width)
      case None => None
      case Some(out) => if |out| == n then Some(out) else None
  }

  /** By the format and by the program alike, `s` turns the output `out` into `after`. */
  ghost predicate Decodes(s: seq<byte>, out: seq<byte>, after: seq<byte>) {
    Decode(s, out, Unbounded) == Some(after) && Decode(s, out, Bits32) == Some(after)
  }

  /** The format and the program agree on what the whole stream stands for. */
  ghost predicate Stands(stream: seq<byte>, r: Option<seq<byte>>) {
    Uncompress(stream, Unbounded) == r && Uncompress(stream, Bits32) == r
  }

  // ---- laws of the reference ----

  /** What a prefix of the stream determines about the header stays when bytes follow it. */
  lemma HeaderOfPrefix(s: seq<byte>, t: seq<byte>, width: Width)
    requires |s| > 0 && ParseHeader(s, width).Some?
    ensures ParseHeader(s + t, width) == ParseHeader(s, width)
  {
    assert forall i | 0 <= i < |s| :: (s + t)[i] == s[i];
  }

  lemma PrefixOfPrefix(r: Option<seq<byte>>, mid: seq<byte>, out: seq<byte>)
    requires r.Some? ==> mid <= r.value
    requires out <= mid
    ensures r.Some? ==> out <= r.value
  {
  }

  /** Output only grows: an accepted stream keeps what was there as a prefix. */
  lemma {:induction false} DecodeExtends(s: seq<byte>, out: seq<byte>, width: Width)
    ensures Decode(s, out, width).Some? ==> out <= Decode(s, out, width).value
    decreases |s|
  {
    hide ParseHeader, CopyFrom;
    if s != [] {
      match ParseHeader(s, width) {
        case None =>
        case Some(Header(size, Literal(len))) =>
          if |s| >= size + len {
            var lit := s[size..size + len];
            DecodeExtends(s[size + len..], out + lit, width);
            assert (out + lit)[..|out|] == out;
            PrefixOfPrefix(Decode(s, out, width), out + lit, out);
          }
        case Some(Header(size, Copy(offset, len))) =>
          if 0 < offset <= |out| {
            DecodeExtends(s[size..], CopyFrom(out, offset, len), width);
            PrefixOfPrefix(Decode(s, out, width), CopyFrom(out, offset, len), out);
          }
      }
    }
  }

  lemma CutFront(s: seq<byte>, t: seq<byte>, m: nat, n: nat)
    requires m <= n <= |s|
    ensures (s + t)[n..] == s[n..] + t && (s + t)[m..n] == s[m..n]
  {
  }

  /** Streams compose: decoding `s + t` is decoding `t` behind what `s` produced. */
  lemma {:induction false} DecodeConcat(s: seq<byte>, t: seq<byte>, out: seq<byte>, width: Width)
    requires Decode(s, out, width).Some?
    ensures Decode(s + t, out, width) == Decode(t, Decode(s, out, width).value, width)
    decreases |s|
  {
    hide ParseHeader, CopyFrom, Decode;
    if s == [] {
      NothingDecodes(out, width);
      assert s + t == t;
    } else {
      DecodeStep(s, out, width);
      DecodeStep(s + t, out, width);
      HeaderOfPrefix(s, t, width);
      var h := ParseHeader(s, width).value;
      match h.element {
        case Literal(len) =>
          var n := h.size + len;
          CutFront(s, t, h.size, n);
          DecodeConcat(s[n..], t, out + s[h.size..n], width);
        case Copy(offset, len) =>
          CutFront(s, t, h.size, h.size);
          DecodeConcat(s[h.size..], t, CopyFrom(out, offset, len), width);
      }
    }
  }

  lemma NothingDecodes(out: seq<byte>, width: Width)
    ensures Decode([], out, width) == Some(out)
  {
  }

  /** Decoding is one element and then the rest. */
  lemma {:induction false} DecodeStep(s: seq<byte>, out: seq<byte>, width: Width)
    requires s != []
    ensures var h := ParseHeader(s, width);
      Decode(s, out, width) ==
        if h == None then None
        else
          match h.value.element
          case Literal(len) =>
            if |s| < h.value.size + len then None
            else Decode(s[h.value.size + len..], out + s[h.value.size..h.value.size + len], width)
          case Copy(offset, len) =>
            if offset == 0 || offset > |out| || |s| < h.value.size then None
            else Decode(s[h.value.size..], CopyFrom(out, offset, len), width)
  {
    hide ParseHeader, CopyFrom;
  }

  lemma {:induction false} CopyFromBehind(pre: seq<byte>, out: seq<byte>, offset: nat, len: nat)
    requires 0 < offset <= |out|
    ensures CopyFrom(pre + out, offset, len) == pre + CopyFrom(out, offset, len)
    decreases len
  {
    if len > 0 {
      var next := out + [out[|out| - offset]];
      assert pre + out + [(pre + out)[|pre + out| - offset]] == pre + next;
      CopyFromBehind(pre, next, offset, len - 1);
    }
  }

  /** Decoding looks only backwards and only as far as it produced: earlier output does not change
      what an accepted stream adds. */
  lemma {:induction false} DecodeBehind(pre: seq<byte>, s: seq<byte>, out: seq<byte>, width: Width)
    requires Decode(s, out, width).Some?
    ensures Decode(s, pre + out, width) == Some(pre + Decode(s, out, width).value)
    decreases |s|
  {
    hide ParseHeader, CopyFrom;
    if s != [] {
      var h := ParseHeader(s, width).value;
      match h.element {
        case Literal(len) =>
          var lit := s[h.size..h.size + len];
          assert pre + out + lit == pre + (out + lit);
          DecodeBehind(pre, s[h.size + len..], out + lit, width);
        case Copy(offset, len) =>
          CopyFromBehind(pre, out, offset, len);
          DecodeBehind(pre, s[h.size..], CopyFrom(out, offset, len), width);
      }
    }
  }

  lemma DecodesJoin(s: seq<byte>, t: seq<byte>, out: seq<byte>, mid: seq<byte>, after: seq<byte>)
    requires Decodes(s, out, mid) && Decodes(t, mid, after)
    ensures Decodes(s + t, out, after)
  {
    hide Decode;
    DecodeConcat(s, t, out, Unbounded);
    DecodeConcat(s, t, out, Bits32);
  }

  lemma DecodesBehind(pre: seq<byte>, s: seq<byte>, out: seq<byte>, after: seq<byte>)
    requires Decodes(s, out, after)
    ensures Decodes(s, pre + out, pre + after)
  {
    hide Decode;
    DecodeBehind(pre, s, out, Unbounded);
    DecodeBehind(pre, s, out, Bits32);
  }

  /** A copy in two pieces is one copy. */
  lemma {:induction false} CopyFromSplit(out: seq<byte>, offset: nat, m: nat, n: nat)
    requires 0 < offset <= |out|
    ensures CopyFrom(CopyFrom(out, offset, m), offset, n) == CopyFrom(out, offset, m + n)
    decreases m
  {
    hide CopyFrom;
    if m == 0 {
      CopyNone(out, offset);
    } else {
      CopyFirst(out, offset, m);
      CopyFirst(out, offset, m + n);
      CopyFromSplit(out + [out[|out| - offset]], offset, m - 1, n);
    }
  }

  lemma CopyNone(out: seq<byte>, offset: nat)
    requires 0 < offset <= |out|
    ensures CopyFrom(out, offset, 0) == out
  {
  }

  lemma {:induction false} CopyFirst(out: seq<byte>, offset: nat, len: nat)
    requires 0 < offset <= |out| && len > 0
    ensures CopyFrom(out, offset, len) == CopyFrom(out + [out[|out| - offset]], offset, len - 1)
  {
  }

  /** The copy is the only extension of `out` in which every new byte equals the one `offset`
      before it. */
  lemma {:induction false} CopyFromUnique(out: seq<byte>, offset: nat, len: nat, r: seq<byte>)
    requires 0 < offset <= |out| && |r| == |out| + len && r[..|out|] == out
    requires forall i | |out| <= i < |r| :: r[i] == r[i - offset]
    ensures r == CopyFrom(out, offset, len)
    decreases len
  {
    if len == 0 {
      assert r == out;
    } else {
      var next := out + [out[|out| - offset]];
      assert r[|out|] == r[|out| - offset] == r[..|out|][|out| - offset];
      assert r[..|next|] == r[..|out|] + [r[|out|]];
      CopyFromUnique(next, offset, len - 1, r);
    }
  }

  /** Every byte a copy adds equals the one `offset` before it. */
  lemma {:induction false} CopyFromPeriodic(out: seq<byte>, offset: nat, len: nat)
    requires 0 < offset <= |out|
    ensures forall i | |out| <= i < |out| + len ::
      CopyFrom(out, offset, len)[i] == CopyFrom(out, offset, len)[i - offset]
    decreases len
  {
    if len > 0 {
      var next := out + [out[|out| - offset]];
      CopyFromPeriodic(next, offset, len - 1);
      var r := CopyFrom(out, offset, len);
      assert r[..|next|] == next;
      assert r[|out|] == next[|out|] && r[|out| - offset] == next[|out| - offset];
    }
  }
}
