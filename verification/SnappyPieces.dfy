/** The reference for `CompressFragment`: which pieces a block is written in, found by byte-wise comparison with
    the position last looked up under the same hash. */
module SnappyPieces {
  import opened Bytes
  import opened SnappyEmit
  import opened SnappyMatch

  const INPUT_MARGIN_BYTES: nat := 15

  /** All positions looked up so far lie before `p`, and have four bytes. */
  ghost predicate Looked(input: seq<byte>, entered: seq<nat>, p: nat) {
    forall i :: 0 <= i < |entered| ==> entered[i] < p && entered[i] + 4 <= |input|
  }

  /** The last of the positions looked up whose four bytes have this hash; the first of all positions if
      none has. */
  ghost function LastWith(input: seq<byte>, hash: uint32 -> nat, entered: seq<nat>, bucket: nat): (q: nat)
    requires forall i :: 0 <= i < |entered| ==> entered[i] + 4 <= |input|
    ensures q == 0 || q in entered
  {
    if entered == [] then 0
    else
      var last := entered[|entered| - 1];
      if hash(Load32(input, last)) == bucket then last
      else LastWith(input, hash, entered[..|entered| - 1], bucket)
  }

  /** What the four bytes at `p` are compared with. */
  ghost function Candidate(input: seq<byte>, hash: uint32 -> nat, entered: seq<nat>, p: nat): (q: nat)
    requires 0 < p && p + 4 <= |input| && Looked(input, entered, p)
    ensures q < p
  {
    LastWith(input, hash, entered, hash(Load32(input, p)))
  }

  lemma OneLonger(s: seq<byte>, p: nat, q: nat, n: nat)
    requires p <= q < |s| && s[p] == s[q] && IsMatchLength(s, p + 1, q + 1, |s|, n)
    ensures IsMatchLength(s, p, q, |s|, 1 + n)
  {
    SameByte(s, p, q);
    SameBytesJoin(s, p, q, 1, n);
  }

  /** How far the bytes from `p` and from `q` on are the same. */
  ghost function CommonLength(s: seq<byte>, p: nat, q: nat): (n: nat)
    requires p <= q <= |s|
    ensures IsMatchLength(s, p, q, |s|, n)
    decreases |s| - q
  {
    if q < |s| && s[p] == s[q] then
      var n := CommonLength(s, p + 1, q + 1);
      OneLonger(s, p, q, n);
      1 + n
    else 0
  }

  /** The position looked up behind `p` in a scan from `start`: every byte for the first 32, then every second
      for the next, and so on. */
  ghost function NextProbe(start: nat, p: nat): (next: nat)
    requires start <= p
    ensures next > p
  {
    p + (32 + (p - start)) / 32
  }

  /** Behind `32 * k` bytes without a match, only every `k + 1`st is looked up. */
  lemma Skipping(start: nat, p: nat, k: nat)
    requires start <= p
    ensures NextProbe(start, p) == p + k + 1 <==> 32 * k <= p - start < 32 * (k + 1)
  {
  }

  /** The outcome of a scan: a match and what it matches, or none, and the positions looked up until then. */
  datatype Search = Search(found: Option<(nat, nat)>, entered: seq<nat>)

  /** The first of the positions from `p` on that has the four bytes of its candidate. */
  ghost function FindMatch(input: seq<byte>, hash: uint32 -> nat, entered: seq<nat>, start: nat, p: nat): (r: Search)
    requires INPUT_MARGIN_BYTES <= |input| && 0 < start <= p && p + 4 <= |input| && Looked(input, entered, p)
    ensures r.found.Some? ==>
      var ip, candidate := r.found.value.0, r.found.value.1;
      && p <= ip && ip + INPUT_MARGIN_BYTES < |input| && candidate < ip && Looked(input, r.entered, ip + 1)
      && SameBytes(input, candidate, ip, 4)
    decreases |input| - p
  {
    if NextProbe(start, p) > |input| - INPUT_MARGIN_BYTES then Search(None, entered)
    else
      var candidate := Candidate(input, hash, entered, p);
      if SameBytes(input, candidate, p, 4) then Search(Some((p, candidate)), entered + [p])
      else FindMatch(input, hash, entered + [p], start, NextProbe(start, p))
  }

  /** What is left at the end is one literal. */
  ghost function Remainder(input: seq<byte>, nextEmit: nat): seq<Piece> {
    if nextEmit < |input| then [LiteralPiece(nextEmit, |input|)] else []
  }

  /** The pieces from `nextEmit` on, when the scan goes on at `p`. */
  ghost function FromScan(input: seq<byte>, hash: uint32 -> nat, entered: seq<nat>, nextEmit: nat, p: nat): seq<Piece>
    requires INPUT_MARGIN_BYTES <= |input| && 0 < p && p + 4 <= |input| && Looked(input, entered, p)
    decreases |input| - p, 1
  {
    var search := FindMatch(input, hash, entered, p, p);
    if search.found == None then Remainder(input, nextEmit)
    else
      var ip, candidate := search.found.value.0, search.found.value.1;
      [LiteralPiece(nextEmit, ip)] + FromMatch(input, hash, search.entered, ip, candidate)
  }

  /** The pieces from `p` on, where the bytes are those at `candidate`: a copy as long as they agree. */
  ghost function FromMatch(input: seq<byte>, hash: uint32 -> nat, entered: seq<nat>, p: nat, candidate: nat): seq<Piece>
    requires candidate < p && p + INPUT_MARGIN_BYTES < |input| && Looked(input, entered, p + 1)
    requires SameBytes(input, candidate, p, 4)
    decreases |input| - p, 0
  {
    var length := CommonLength(input, candidate, p);
    SameAt(input, candidate, p, 4);
    assert length >= 4;
    CopyPieces(p - candidate, length) + FromCopy(input, hash, entered, p + length)
  }

  /** The pieces from `ip` on, behind a copy: another one if there is a match at once, or a scan from the next
      byte on. */
  ghost function FromCopy(input: seq<byte>, hash: uint32 -> nat, entered: seq<nat>, ip: nat): seq<Piece>
    requires 0 < ip <= |input| && Looked(input, entered, ip - 1)
    decreases |input| - ip, 2
  {
    if ip + INPUT_MARGIN_BYTES >= |input| then Remainder(input, ip)
    else
      var before := entered + [ip - 1];
      var candidate := Candidate(input, hash, before, ip);
      if SameBytes(input, candidate, ip, 4) then FromMatch(input, hash, before + [ip], ip, candidate)
      else FromScan(input, hash, before + [ip], ip, ip + 1)
  }

  /** The pieces of a block. */
  ghost function PiecesOfBlock(input: seq<byte>, hash: uint32 -> nat): seq<Piece> {
    if |input| < INPUT_MARGIN_BYTES then Remainder(input, 0) else FromScan(input, hash, [], 0, 1)
  }

  // ---- no match is missed, and what that is good for ----

  /** The `k`-th position looked up has, or has not, the four bytes of its candidate. */
  ghost predicate Hit(input: seq<byte>, hash: uint32 -> nat, entered: seq<nat>, k: nat, same: bool) {
    && k < |entered| && 0 < entered[k] && entered[k] + 4 <= |input| && Looked(input, entered[..k], entered[k])
    && (SameBytes(input, Candidate(input, hash, entered[..k], entered[k]), entered[k], 4) <==> same)
  }

  /** The `i`-th position that a scan from `start` looks up, from `p` on. */
  ghost function ProbeAt(start: nat, p: nat, i: nat): (q: nat)
    requires start <= p
    ensures p <= q
    decreases i
  {
    if i == 0 then p else ProbeAt(start, NextProbe(start, p), i - 1)
  }

  /** A scan looks positions up by `NextProbe`, and goes on until one of them, its last, has the bytes of its
      candidate; it finds nothing only if none has before the margin comes too close. */
  lemma {:induction false} FirstMatch(input: seq<byte>, hash: uint32 -> nat, entered: seq<nat>, start: nat, p: nat)
    requires INPUT_MARGIN_BYTES <= |input| && 0 < start <= p && p + 4 <= |input| && Looked(input, entered, p)
    ensures var r := FindMatch(input, hash, entered, start, p);
      var probes := |r.entered| - |entered|;
      && entered <= r.entered
      && (forall k :: |entered| <= k < |r.entered| ==> r.entered[k] == ProbeAt(start, p, k - |entered|))
      && (r.found == None ==>
            && (forall k :: |entered| <= k < |r.entered| ==> Hit(input, hash, r.entered, k, false))
            && ProbeAt(start, p, probes + 1) > |input| - INPUT_MARGIN_BYTES)
      && (r.found.Some? ==>
            && probes > 0 && r.entered[|r.entered| - 1] == r.found.value.0
            && Hit(input, hash, r.entered, |r.entered| - 1, true)
            && forall k :: |entered| <= k < |r.entered| - 1 ==> Hit(input, hash, r.entered, k, false))
    decreases |input| - p
  {
    hide SameBytes, LastWith, NextProbe, Load32, Hit;
    assert ProbeAt(start, p, 0) == p && ProbeAt(start, p, 1) == ProbeAt(start, NextProbe(start, p), 0);
    if NextProbe(start, p) <= |input| - INPUT_MARGIN_BYTES {
      var now, next := entered + [p], NextProbe(start, p);
      OneProbe(input, hash, entered, p);
      if !SameBytes(input, Candidate(input, hash, entered, p), p, 4) {
        FirstMatch(input, hash, now, start, next);
        var r := FindMatch(input, hash, now, start, next);
        OneProbeLater(input, hash, now, r.entered, |entered|, false);
        assert r.entered[|entered|] == now[|entered|] == p;
        forall k | |entered| < k < |r.entered|
          ensures r.entered[k] == ProbeAt(start, p, k - |entered|)
        {
          assert r.entered[k] == ProbeAt(start, next, k - |now|);
        }
      }
    }
  }

  lemma OneProbe(input: seq<byte>, hash: uint32 -> nat, entered: seq<nat>, p: nat)
    requires 0 < p && p + 4 <= |input| && Looked(input, entered, p)
    ensures Hit(input, hash, entered + [p], |entered|, SameBytes(input, Candidate(input, hash, entered, p), p, 4))
  {
    hide SameBytes, LastWith, Load32;
    assert (entered + [p])[..|entered|] == entered;
  }

  lemma OneProbeLater(input: seq<byte>, hash: uint32 -> nat, now: seq<nat>, later: seq<nat>, k: nat, same: bool)
    requires now <= later && Hit(input, hash, now, k, same)
    ensures Hit(input, hash, later, k, same)
  {
    hide SameBytes, LastWith, Load32, Candidate;
    assert later[..k] == now[..k];
  }

  /** A block of one byte over and over is that byte and a copy. */
  lemma {:induction false} UniformBlock(input: seq<byte>, hash: uint32 -> nat)
    requires |input| > INPUT_MARGIN_BYTES + 1 && forall i :: 0 <= i < |input| ==> input[i] == input[0]
    ensures PiecesOfBlock(input, hash) == [LiteralPiece(0, 1)] + CopyPieces(1, |input| - 1)
  {
    hide CopyPieces, Load32, CommonLength, FromCopy;
    var n := |input|;
    assert Candidate(input, hash, [], 1) == 0;
    assert input[0..4] == input[1..5];
    assert FindMatch(input, hash, [], 1, 1) == Search(Some((1, 0)), [1]) by { assert [] + [1] == [1]; }
    var length := CommonLength(input, 0, 1);
    assert 1 + length == n by { assert input[0 + length] == input[0]; }
    assert FromCopy(input, hash, [1], n) == [] by { NothingLeft(input, hash, [1]); }
    assert CopyPieces(1, n - 1) + [] == CopyPieces(1, n - 1);
    assert FromMatch(input, hash, [1], 1, 0) == CopyPieces(1, n - 1);
    assert FromScan(input, hash, [], 0, 1) == [LiteralPiece(0, 1)] + FromMatch(input, hash, [1], 1, 0);
  }

  lemma NothingLeft(input: seq<byte>, hash: uint32 -> nat, entered: seq<nat>)
    requires |input| > 0 && Looked(input, entered, |input| - 1)
    ensures FromCopy(input, hash, entered, |input|) == []
  {
  }

  lemma {:induction false} FewCopies(offset: nat, len: nat)
    requires len > 0
    ensures 64 * |CopyPieces(offset, len)| < len + 64
  {
    if len >= 68 {
      FewCopies(offset, len - 64);
    }
  }

  lemma {:induction false} SmallCopies(pieces: seq<Piece>)
    requires forall i :: 0 <= i < |pieces| ==> pieces[i].CopyPiece?
    ensures TotalSize(pieces) <= 3 * |pieces|
  {
    if pieces != [] {
      SmallCopies(pieces[..|pieces| - 1]);
    }
  }

  /** Such a block of 64 bytes or more shrinks to a sixth at most, whatever the hash. */
  lemma {:induction false} UniformShrinks(input: seq<byte>, hash: uint32 -> nat)
    requires |input| >= 64 && forall i :: 0 <= i < |input| ==> input[i] == input[0]
    ensures 6 * TotalSize(PiecesOfBlock(input, hash)) <= |input|
  {
    hide TotalSize, CopyPieces;
    var first, copies := LiteralPiece(0, 1), CopyPieces(1, |input| - 1);
    UniformBlock(input, hash);
    FewCopies(1, |input| - 1);
    PiecesAddUp(1, |input| - 1);
    SmallCopies(copies);
    TotalSizeJoins([first], copies);
    OneSize(first);
  }

  /** A shorter one takes few bytes in any case. */
  lemma {:induction false} UniformRemains(input: seq<byte>, hash: uint32 -> nat)
    requires |input| < 64 && forall i :: 0 <= i < |input| ==> input[i] == input[0]
    ensures TotalSize(PiecesOfBlock(input, hash)) <= 17
  {
    hide TotalSize;
    if |input| > INPUT_MARGIN_BYTES + 1 {
      UniformBlock(input, hash);
      TotalSizeJoins([LiteralPiece(0, 1)], CopyPieces(1, |input| - 1));
      OneSize(LiteralPiece(0, 1));
      OneSize(CopyPiece(1, |input| - 1));
    } else if input != [] {
      assert PiecesOfBlock(input, hash) == [LiteralPiece(0, |input|)] by { TooShortToScan(input, hash); }
      OneSize(LiteralPiece(0, |input|));
    } else {
      NoSize();
    }
  }

  lemma TooShortToScan(input: seq<byte>, hash: uint32 -> nat)
    requires 0 < |input| <= INPUT_MARGIN_BYTES + 1
    ensures PiecesOfBlock(input, hash) == [LiteralPiece(0, |input|)]
  {
  }

  lemma NoSize()
    ensures TotalSize([]) == 0
  {
  }

  lemma OneSize(piece: Piece)
    ensures TotalSize([piece]) == PieceSize(piece)
  {
    assert TotalSize([piece][..0]) == 0;
  }

  lemma {:induction false} TotalSizeJoins(a: seq<Piece>, b: seq<Piece>)
    ensures TotalSize(a + b) == TotalSize(a) + TotalSize(b)
    decreases |b|
  {
    if b == [] {
      assert a + b == a;
    } else {
      assert (a + b)[..|a + b| - 1] == a + b[..|b| - 1];
      TotalSizeJoins(a, b[..|b| - 1]);
    }
  }
}
