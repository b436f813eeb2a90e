/** The encoder's two emitters, proved against the reference decoder. */
module SnappyEmit {
  import opened Arithmetic
  import opened Bytes
  import opened Memory
  import opened SnappyFormat

  // ---- what an encoding means ----

  /** By the format and by the program alike, this header stands at the front of `enc`. */
  ghost predicate HeaderIs(enc: seq<byte>, h: Header)
    requires |enc| > 0
  {
    ParseHeader(enc, Unbounded) == Some(h) && ParseHeader(enc, Bits32) == Some(h)
  }

  /** `enc` is one literal element holding exactly `lit`. */
  ghost predicate IsLiteral(enc: seq<byte>, lit: seq<byte>) {
    && enc != []
    && var size := HeaderSize(enc[0]);
    && |enc| == size + |lit| && enc[size..] == lit
    && HeaderIs(enc, Header(size, Literal(|lit|)))
  }

  /** Behind any output long enough, `enc` stands for one copy. */
  ghost predicate EncodesCopy(enc: seq<byte>, offset: nat, len: nat) {
    && offset > 0
    && forall out: seq<byte> | offset <= |out| :: Decodes(enc, out, CopyFrom(out, offset, len))
  }

  // ---- the pieces that an encoding is made of ----

  /** A stretch of the input, or a copy of at most 64 bytes. */
  datatype Piece = LiteralPiece(from: nat, to: nat) | CopyPiece(offset: nat, length: nat)

  /** How many bytes a piece is written in. */
  ghost function PieceSize(piece: Piece): nat {
    match piece
    case LiteralPiece(from, to) => if from < to then LiteralOverhead(to - from) + (to - from) else 0
    case CopyPiece(offset, length) => if length < 12 && offset < 2048 then 2 else 3
  }

  /** `enc` is one element, and that element is the piece. */
  ghost predicate IsPiece(enc: seq<byte>, input: seq<byte>, piece: Piece) {
    match piece
    case LiteralPiece(from, to) => from < to <= |input| && IsLiteral(enc, input[from..to])
    case CopyPiece(offset, length) => enc != [] && HeaderIs(enc, Header(|enc|, Copy(offset, length)))
  }

  /** `enc` is these pieces, one behind the other, each in as many bytes as it takes. */
  ghost predicate Spells(enc: seq<byte>, input: seq<byte>, pieces: seq<Piece>)
    decreases |pieces|
  {
    if pieces == [] then enc == []
    else
      var last := pieces[|pieces| - 1];
      && PieceSize(last) <= |enc| && IsPiece(enc[|enc| - PieceSize(last)..], input, last)
      && Spells(enc[..|enc| - PieceSize(last)], input, pieces[..|pieces| - 1])
  }

  lemma {:induction false} OneMorePiece(enc: seq<byte>, more: seq<byte>, input: seq<byte>, pieces: seq<Piece>,
                                        piece: Piece)
    requires Spells(enc, input, pieces) && |more| == PieceSize(piece) && IsPiece(more, input, piece)
    ensures Spells(enc + more, input, pieces + [piece])
  {
    hide IsPiece, PieceSize;
    var all, whole := pieces + [piece], enc + more;
    assert all[..|all| - 1] == pieces && whole[..|whole| - |more|] == enc && whole[|whole| - |more|..] == more;
  }

  lemma {:induction false} SpelledLast(enc: seq<byte>, input: seq<byte>, pieces: seq<Piece>)
    requires Spells(enc, input, pieces) && pieces != []
    ensures var last := pieces[|pieces| - 1];
      && PieceSize(last) <= |enc| && IsPiece(enc[|enc| - PieceSize(last)..], input, last)
      && Spells(enc[..|enc| - PieceSize(last)], input, pieces[..|pieces| - 1])
  {
  }

  lemma {:induction false} SpelledNone(enc: seq<byte>, input: seq<byte>)
    requires Spells(enc, input, [])
    ensures enc == []
  {
  }

  lemma {:induction false} SpellsJoin(a: seq<byte>, b: seq<byte>, input: seq<byte>, before: seq<Piece>,
                                      pieces: seq<Piece>)
    requires Spells(a, input, before) && Spells(b, input, pieces)
    ensures Spells(a + b, input, before + pieces)
    decreases |pieces|
  {
    hide IsPiece, PieceSize, Spells;
    if pieces == [] {
      SpelledNone(b, input);
      assert a + b == a && before + pieces == before;
    } else {
      SpelledLast(b, input, pieces);
      var last := pieces[|pieces| - 1];
      var front, back := b[..|b| - PieceSize(last)], b[|b| - PieceSize(last)..];
      SpellsJoin(a, front, input, before, pieces[..|pieces| - 1]);
      OneMorePiece(a + front, back, input, before + pieces[..|pieces| - 1], last);
      assert a + front + back == a + b && before + pieces[..|pieces| - 1] + [last] == before + pieces;
    }
  }

  ghost function TotalSize(pieces: seq<Piece>): nat {
    if pieces == [] then 0 else TotalSize(pieces[..|pieces| - 1]) + PieceSize(pieces[|pieces| - 1])
  }

  lemma {:induction false} SpelledInSize(enc: seq<byte>, input: seq<byte>, pieces: seq<Piece>)
    requires Spells(enc, input, pieces)
    ensures |enc| == TotalSize(pieces)
    decreases |pieces|
  {
    hide IsPiece, PieceSize;
    if pieces != [] {
      SpelledInSize(enc[..|enc| - PieceSize(pieces[|pieces| - 1])], input, pieces[..|pieces| - 1]);
    }
  }

  /** A copy of any length in pieces: 64 bytes each, 60 where less than four would be left, and the rest. */
  ghost function CopyPieces(offset: nat, len: nat): seq<Piece> {
    if len >= 68 then [CopyPiece(offset, 64)] + CopyPieces(offset, len - 64)
    else if len > 64 then [CopyPiece(offset, 60), CopyPiece(offset, len - 60)]
    else [CopyPiece(offset, len)]
  }

  lemma LiteralDecodes(enc: seq<byte>, lit: seq<byte>, out: seq<byte>)
    requires IsLiteral(enc, lit)
    ensures Decodes(enc, out, out + lit)
  {
    var size := HeaderSize(enc[0]);
    assert enc[size..size + |lit|] == lit;
    assert enc[size + |lit|..] == [];
  }

  lemma CopyElementEncodes(enc: seq<byte>, offset: nat, len: nat)
    requires offset > 0 && enc != [] && HeaderIs(enc, Header(|enc|, Copy(offset, len)))
    ensures EncodesCopy(enc, offset, len)
  {
    hide ParseHeader, CopyFrom;
    forall out: seq<byte> | offset <= |out|
      ensures Decodes(enc, out, CopyFrom(out, offset, len))
    {
      assert enc[|enc|..] == [];
      assert Decodes([], CopyFrom(out, offset, len), CopyFrom(out, offset, len));
    }
  }

  /** Pieces with the same offset, run in sequence, are one copy of the total length. */
  lemma CopiesJoin(a: seq<byte>, b: seq<byte>, offset: nat, m: nat, n: nat)
    requires EncodesCopy(a, offset, m) && EncodesCopy(b, offset, n)
    ensures EncodesCopy(a + b, offset, m + n)
  {
    hide Decodes, CopyFrom;
    forall out: seq<byte> | offset <= |out|
      ensures Decodes(a + b, out, CopyFrom(out, offset, m + n))
    {
      var mid := CopyFrom(out, offset, m);
      CopyFromSplit(out, offset, m, n);
      DecodesJoin(a, b, out, mid, CopyFrom(mid, offset, n));
    }
  }

  // ---- literals ----

  /** Bytes the length of a long literal takes. */
  ghost function LengthBytes(n: nat): (k: nat)
    ensures n < 0x8000_0000 ==> k <= 4
  {
    if n < 60 then 0 else if n < 0x100 then 1 else if n < 0x1_0000 then 2 else if n < 0x100_0000 then 3 else 4
  }

  /** Bytes before the literal's own: the tag and, past length 60, the length less one. */
  ghost function LiteralOverhead(len: nat): nat
    requires len > 0
  {
    1 + LengthBytes(len - 1)
  }

  /** How far an emitted literal may touch the output: its encoding, or 17 bytes on the fast path. */
  ghost function LiteralReach(len: nat, fast: bool): nat
    requires len > 0
  {
    if fast && len <= 16 then 17 else LiteralOverhead(len) + len
  }

  /** The fast path: the tag, and 16 bytes of which those of the literal stay. */
  method EmitShortLiteral(out: array<byte>, op: nat, s: seq<byte>, p: nat, len: nat) returns (end: nat)
    requires 0 < len <= 16 && p + 16 <= |s| && op + 17 <= out.Length
    modifies out
    ensures end == op + 1 + len && out[op..end] == [4 * (len - 1)] + s[p..p + len]
    ensures OnlyWrites(out, op, op + 17)
  {
    out[op] := 4 * (len - 1);
    var block := s[p..p + 16];
    Memcpy(out, op + 1, block);
    end := op + 1 + len;
    assert out[op + 1..op + 17] == block;
    SliceFront(out, op + 1, op + 17, len);
    assert s[p..p + len] == block[..len];
    assert out[op..end] == [out[op]] + out[op + 1..end];
  }

  method EmitLiteral(out: array<byte>, op: nat, s: seq<byte>, p: nat, len: nat, allowFastPath: bool) returns (end: nat)
    requires 0 < len < 0x8000_0000 && p + len <= |s|
    requires allowFastPath ==> p + 16 <= |s|
    requires op + LiteralReach(len, allowFastPath) <= out.Length
    modifies out
    ensures end == op + LiteralOverhead(len) + len
    ensures end <= out.Length && IsLiteral(out[op..end], s[p..p + len])
    ensures OnlyWrites(out, op, op + LiteralReach(len, allowFastPath))
  {
    hide IsLiteral, LengthBytes, Le;
    assert LengthBytes(len - 1) == 0 <==> len <= 60 by { OverheadOf(len - 1); }
    var n := len - 1;
    if allowFastPath && len <= 16 {
      end := EmitShortLiteral(out, op, s, p, len);
      TaggedLiteral(out[op..end], s[p..p + len]);
      return;
    }
    var at := op + 1;
    if n < 60 {
      out[op] := 4 * n;
    } else {
      at := EmitLength(out, at, n);
      out[op] := 4 * (59 + (at - (op + 1)));
    }
    end := FinishLiteral(out, op, at, s[p..p + len]);
  }

  /** Puts the bytes of a literal behind its header. */
  method FinishLiteral(out: array<byte>, op: nat, at: nat, lit: seq<byte>) returns (end: nat)
    requires 0 < |lit| < TWO32 && op < at && at - op <= 5 && at + |lit| <= out.Length
    requires at == op + 1 ==> |lit| <= 60 && out[op] == 4 * (|lit| - 1)
    requires at > op + 1 ==> out[op] == 4 * (59 + (at - (op + 1)))
    requires at > op + 1 ==> Le(out[op + 1..at], 0, at - (op + 1)) == |lit| - 1
    modifies out
    ensures end == at + |lit| && IsLiteral(out[op..end], lit)
    ensures OnlyWrites(out, at, end)
  {
    hide IsLiteral, Le;
    ghost var tag, trailer := out[op], out[op + 1..at];
    Memcpy(out, at, lit);
    end := at + |lit|;
    assert trailer == out[op + 1..at];
    ghost var enc := out[op..end];
    assert enc == [tag] + trailer + lit;
    if |trailer| == 0 {
      TaggedLiteral(enc, lit);
    } else {
      LongLiteral(enc, lit, trailer);
    }
  }

  /** The length of a long literal, least significant byte first, in as many bytes as it needs. */
  method EmitLength(out: array<byte>, base: nat, length: nat) returns (at: nat)
    requires 60 <= length < 0x8000_0000 && base + 4 <= out.Length
    modifies out
    ensures at == base + LengthBytes(length) <= base + 4
    ensures Le(out[base..at], 0, at - base) == length
    ensures OnlyWrites(out, base, at)
  {
    at := base;
    var n, count := length, 0;
    while n > 0
      invariant 0 <= count <= LengthBytes(length) && at == base + count
      invariant n == length / Pow256(count) && (n > 0 <==> count < LengthBytes(length))
      invariant Le(out[base..at], 0, count) + Pow256(count) * n == length
      invariant OnlyWrites(out, base, at)
    {
      out[at] := n % 0x100;
      at := at + 1;
      n := n / 0x100;
      count := count + 1;
    }
  }

  lemma OverheadOf(n: nat)
    ensures LengthBytes(n) == 0 <==> n < 60
  {
  }

  lemma TaggedLiteral(enc: seq<byte>, lit: seq<byte>)
    requires 0 < |lit| <= 60 && enc == [4 * (|lit| - 1)] + lit
    ensures IsLiteral(enc, lit)
  {
  }

  lemma LongLiteral(enc: seq<byte>, lit: seq<byte>, trailer: seq<byte>)
    requires 1 <= |trailer| <= 4 && 0 < |lit| < TWO32
    requires enc == [4 * (59 + |trailer|)] + trailer + lit
    requires Le(trailer, 0, |trailer|) == |lit| - 1
    ensures IsLiteral(enc, lit)
  {
    assert forall i | 0 <= i < |trailer| :: trailer[i] == enc[1 + i];
    assert Le(enc, 1, |trailer|) == Le(trailer, 0, |trailer|);
  }

  // ---- copies ----

  lemma ShortCopyTag(enc: seq<byte>, offset: nat, len: nat)
    requires 4 <= len < 12 && 0 < offset < 2048
    requires enc == [1 + 4 * (len - 4) + 0x20 * (offset / 0x100), offset % 0x100]
    ensures HeaderIs(enc, Header(|enc|, Copy(offset, len))) && EncodesCopy(enc, offset, len)
  {
    hide EncodesCopy;
    ShortTagFields(len - 4, offset / 0x100);
    CopyElementEncodes(enc, offset, len);
  }

  lemma ShortTagFields(low: nat, high: nat)
    requires low < 8
    ensures var tag := 1 + 4 * low + 0x20 * high; tag % 4 == 1 && tag / 4 == low + 8 * high && tag / 0x20 == high
  {
  }

  lemma CopyTag(enc: seq<byte>, offset: nat, len: nat)
    requires 4 <= len <= 64 && 0 < offset < 0x1_0000
    requires enc == [2 + 4 * (len - 1), offset % 0x100, offset / 0x100]
    ensures HeaderIs(enc, Header(|enc|, Copy(offset, len))) && EncodesCopy(enc, offset, len)
  {
    hide EncodesCopy;
    assert enc[0] % 4 == 2 && enc[0] / 4 == len - 1;
    assert Le(enc, 1, 2) == offset;
    CopyElementEncodes(enc, offset, len);
  }

  /** How far a copy touches the output: three bytes for each piece but the last, which takes two when it is
      short and near, and otherwise three that are stored with a fourth. */
  ghost function CopyReach(offset: nat, len: nat): nat {
    3 * (Pieces(len) - 1) + if LastPiece(len) < 12 && offset < 2048 then 2 else 4
  }

  /** How many pieces of at most 64 bytes a copy is split into. */
  ghost function Pieces(len: nat): (n: nat)
    ensures n >= 1
  {
    if len >= 68 then 1 + Pieces(len - 64) else if len > 64 then 2 else 1
  }

  ghost function LastPiece(len: nat): nat {
    if len >= 68 then LastPiece(len - 64) else if len > 64 then len - 60 else len
  }

  lemma {:induction false} ReachWithinLength(offset: nat, len: nat)
    requires len >= 4
    ensures CopyReach(offset, len) <= len && 3 * Pieces(len) < len
  {
    FewPieces(len);
  }

  lemma {:induction false} FewPieces(len: nat)
    requires len >= 4
    ensures 3 * Pieces(len) + 1 <= len
  {
    if len >= 68 {
      FewPieces(len - 64);
    }
  }

  method EmitCopyAtMost64(out: array<byte>, op: nat, offset: nat, len: nat, lenLessThan12: bool,
                          ghost input: seq<byte>) returns (end: nat)
    requires 4 <= len <= 64 && 0 < offset < 0x1_0000 && lenLessThan12 == (len < 12)
    requires op + CopyReach(offset, len) <= out.Length
    modifies out
    ensures end == if len < 12 && offset < 2048 then op + 2 else op + 3
    ensures IsPiece(out[op..end], input, CopyPiece(offset, len)) && EncodesCopy(out[op..end], offset, len)
    ensures OnlyWrites(out, op, op + CopyReach(offset, len))
  {
    hide EncodesCopy, Pieces, LastPiece;
    LastOfShort(len);
    if lenLessThan12 && offset < 2048 {
      // (offset >> 3) & 0xe0: the three highest of eleven bits, moved to the top of the tag byte.
      out[op] := 1 + 4 * (len - 4) + 0x20 * (offset / 0x100);
      out[op + 1] := offset % 0x100;
      end := op + 2;
      ShortCopyTag(out[op..end], offset, len);
    } else {
      var u := 2 + 4 * (len - 1) + 0x100 * offset;
      Store32(out, op, u);
      end := op + 3;
      CopyWord(offset, len);
      assert out[op..end] == out[op..op + 4][..3] == [2 + 4 * (len - 1), offset % 0x100, offset / 0x100];
      CopyTag(out[op..end], offset, len);
    }
  }

  lemma CopyWord(offset: nat, len: nat)
    requires 4 <= len <= 64 && offset < 0x1_0000
    ensures var u := 2 + 4 * (len - 1) + 0x100 * offset;
      && u < TWO32 && u % 0x100 == 2 + 4 * (len - 1)
      && u / 0x100 % 0x100 == offset % 0x100 && u / 0x1_0000 % 0x100 == offset / 0x100
  {
    var u, tag := 2 + 4 * (len - 1) + 0x100 * offset, 2 + 4 * (len - 1);
    QuotientUnique(u, 0x100, offset, tag);
    QuotientUnique(u, 0x1_0000, offset / 0x100, 0x100 * (offset % 0x100) + tag);
  }

  /** Splits a long copy into pieces of 64, at most one of 60, and a rest of at least four. */
  method EmitCopy(out: array<byte>, op: nat, offset: nat, len: nat, lenLessThan12: bool, ghost input: seq<byte>)
    returns (end: nat)
    requires 4 <= len && 0 < offset < 0x1_0000 && lenLessThan12 == (len < 12)
    requires op + CopyReach(offset, len) <= out.Length
    modifies out
    ensures op + 2 <= end <= op + CopyReach(offset, len) && end <= op + 3 * Pieces(len)
    ensures Spells(out[op..end], input, CopyPieces(offset, len)) && EncodesCopy(out[op..end], offset, len)
    ensures OnlyWrites(out, op, op + CopyReach(offset, len))
  {
    hide EncodesCopy, Pieces, LastPiece, Spells, CopyPieces, IsPiece;
    LastOfShort(len);
    LastOfShort(60);
    PiecesOf(offset, len);
    NoPieces(input);
    if lenLessThan12 {
      end := EmitCopyAtMost64(out, op, offset, len, true, input);
      OnePiece(out[op..end], input, CopyPiece(offset, len));
      PiecesEncode(out[op..end], input, offset, len);
      return;
    }
    end := op;
    var rest := len;
    ghost var pieces: seq<Piece> := [];
    assert out[op..end] == [] && pieces + CopyPieces(offset, rest) == CopyPieces(offset, len);
    while rest >= 68
      invariant 4 <= rest <= len && op <= end && end + 3 * Pieces(rest) == op + 3 * Pieces(len)
      invariant LastPiece(rest) == LastPiece(len) && Pieces(rest) >= 1
      invariant Spells(out[op..end], input, pieces) && pieces + CopyPieces(offset, rest) == CopyPieces(offset, len)
      invariant OnlyWrites(out, op, op + CopyReach(offset, len))
    {
      PieceOff(offset, rest);
      PiecesOf(offset, rest);
      Regroup(pieces, CopyPiece(offset, 64), CopyPieces(offset, rest - 64));
      end, pieces := EmitPiece(out, op, end, offset, 64, input, pieces);
      rest := rest - 64;
    }
    end := EmitRest(out, op, end, offset, rest, input, pieces);
    PiecesEncode(out[op..end], input, offset, len);
  }

  /** What is left when fewer than 68 bytes are: one piece, or 60 bytes and a rest of at least four. */
  method EmitRest(out: array<byte>, op: nat, at: nat, offset: nat, len: nat, ghost input: seq<byte>,
                  ghost pieces: seq<Piece>) returns (end: nat)
    requires op <= at && 4 <= len < 68 && 0 < offset < 0x1_0000
    requires at + CopyReach(offset, len) <= out.Length && Spells(out[op..at], input, pieces)
    modifies out
    ensures at + 2 <= end <= at + CopyReach(offset, len) && end <= at + 3 * Pieces(len)
    ensures Spells(out[op..end], input, pieces + CopyPieces(offset, len))
    ensures OnlyWrites(out, at, at + CopyReach(offset, len))
  {
    hide Spells, CopyPieces;
    var rest := len;
    end := at;
    ghost var done := pieces;
    PiecesOf(offset, len);
    PiecesOf(offset, if len > 64 then len - 60 else len);
    if rest > 64 {
      Regroup(pieces, CopyPiece(offset, 60), CopyPieces(offset, rest - 60));
      end, done := EmitPiece(out, op, end, offset, 60, input, done);
      rest := rest - 60;
    }
    end, done := EmitPiece(out, op, end, offset, rest, input, done);
  }

  /** One more piece behind those already emitted at `op`. */
  method EmitPiece(out: array<byte>, op: nat, at: nat, offset: nat, length: nat, ghost input: seq<byte>,
                   ghost pieces: seq<Piece>) returns (end: nat, ghost piecesNow: seq<Piece>)
    requires op <= at && 4 <= length <= 64 && 0 < offset < 0x1_0000
    requires at + CopyReach(offset, length) <= out.Length && Spells(out[op..at], input, pieces)
    modifies out
    ensures end == (if length < 12 && offset < 2048 then at + 2 else at + 3) && end <= out.Length
    ensures piecesNow == pieces + [CopyPiece(offset, length)] && Spells(out[op..end], input, piecesNow)
    ensures OnlyWrites(out, at, at + CopyReach(offset, length))
  {
    hide EncodesCopy, Spells, IsPiece;
    ghost var before := out[op..at];
    end := EmitCopyAtMost64(out, at, offset, length, length < 12, input);
    piecesNow := pieces + [CopyPiece(offset, length)];
    assert out[op..end] == before + out[at..end];
    OneMorePiece(before, out[at..end], input, pieces, CopyPiece(offset, length));
  }

  lemma OnePiece(enc: seq<byte>, input: seq<byte>, piece: Piece)
    requires |enc| == PieceSize(piece) && IsPiece(enc, input, piece)
    ensures Spells(enc, input, [piece])
  {
    hide IsPiece, PieceSize;
    NoPieces(input);
    OneMorePiece([], enc, input, [], piece);
    assert [] + enc == enc && [] + [piece] == [piece];
  }

  ghost function Lengths(pieces: seq<Piece>): nat {
    if pieces == [] then 0
    else
      var last := pieces[|pieces| - 1];
      Lengths(pieces[..|pieces| - 1]) + if last.CopyPiece? then last.length else 0
  }

  /** Copies with one offset, run in sequence, are one copy. */
  lemma {:induction false} CopiesEncode(enc: seq<byte>, input: seq<byte>, pieces: seq<Piece>, offset: nat)
    requires offset > 0 && Spells(enc, input, pieces)
    requires forall i :: 0 <= i < |pieces| ==> pieces[i].CopyPiece? && pieces[i].offset == offset
    ensures EncodesCopy(enc, offset, Lengths(pieces))
    decreases |pieces|
  {
    hide EncodesCopy, HeaderIs;
    if pieces == [] {
      CopyOfNothing(offset);
    } else {
      var last := pieces[|pieces| - 1];
      var a, b := enc[..|enc| - PieceSize(last)], enc[|enc| - PieceSize(last)..];
      CopiesEncode(a, input, pieces[..|pieces| - 1], offset);
      CopyElementEncodes(b, offset, last.length);
      CopiesJoin(a, b, offset, Lengths(pieces[..|pieces| - 1]), last.length);
      assert a + b == enc;
    }
  }

  lemma {:induction false} LengthsJoin(a: seq<Piece>, b: seq<Piece>)
    ensures Lengths(a + b) == Lengths(a) + Lengths(b)
    decreases |b|
  {
    if b == [] {
      assert a + b == a;
    } else {
      assert (a + b)[..|a + b| - 1] == a + b[..|b| - 1];
      LengthsJoin(a, b[..|b| - 1]);
    }
  }

  lemma {:induction false} PiecesAddUp(offset: nat, len: nat)
    ensures Lengths(CopyPieces(offset, len)) == len
    ensures forall i :: 0 <= i < |CopyPieces(offset, len)| ==>
      CopyPieces(offset, len)[i].CopyPiece? && CopyPieces(offset, len)[i].offset == offset
  {
    hide Lengths, CopyPieces;
    PiecesOf(offset, len);
    OneLength(CopyPiece(offset, 64));
    OneLength(CopyPiece(offset, 60));
    OneLength(CopyPiece(offset, len));
    if len >= 68 {
      PiecesAddUp(offset, len - 64);
      LengthsJoin([CopyPiece(offset, 64)], CopyPieces(offset, len - 64));
    } else if len > 64 {
      PiecesAddUp(offset, len - 60);
      LengthsJoin([CopyPiece(offset, 60)], CopyPieces(offset, len - 60));
    }
  }

  lemma OneLength(piece: Piece)
    requires piece.CopyPiece?
    ensures Lengths([piece]) == piece.length
  {
    assert Lengths([piece][..0]) == 0;
  }

  lemma {:induction false} PiecesEncode(enc: seq<byte>, input: seq<byte>, offset: nat, len: nat)
    requires offset > 0 && Spells(enc, input, CopyPieces(offset, len))
    ensures EncodesCopy(enc, offset, len)
  {
    hide EncodesCopy, Spells, Lengths, CopyPieces;
    PiecesAddUp(offset, len);
    CopiesEncode(enc, input, CopyPieces(offset, len), offset);
  }

  lemma PiecesOf(offset: nat, len: nat)
    ensures len >= 68 ==> CopyPieces(offset, len) == [CopyPiece(offset, 64)] + CopyPieces(offset, len - 64)
    ensures 64 < len < 68 ==> CopyPieces(offset, len) == [CopyPiece(offset, 60)] + CopyPieces(offset, len - 60)
    ensures len <= 64 ==> CopyPieces(offset, len) == [CopyPiece(offset, len)]
  {
  }

  lemma NoPieces(input: seq<byte>)
    ensures Spells([], input, [])
  {
  }

  lemma Regroup(pieces: seq<Piece>, piece: Piece, more: seq<Piece>)
    ensures pieces + ([piece] + more) == pieces + [piece] + more
  {
  }

  lemma {:induction false} PieceOff(offset: nat, len: nat)
    requires len >= 68
    ensures Pieces(len) == 1 + Pieces(len - 64) && LastPiece(len) == LastPiece(len - 64)
    ensures CopyReach(offset, 64) == 4
  {
  }

  lemma LastOfShort(len: nat)
    ensures len < 68 ==>
      LastPiece(len) == (if len > 64 then len - 60 else len) && Pieces(len) == (if len > 64 then 2 else 1)
  {
  }

  lemma CopyOfNothing(offset: nat)
    requires offset > 0
    ensures EncodesCopy([], offset, 0)
  {
    forall out: seq<byte> | offset <= |out|
      ensures Decodes([], out, CopyFrom(out, offset, 0))
    {
    }
  }
}
