/** `CompressFragment`: one block of at most 64 KiB, for any hash function. */
module SnappyFragment {
  import opened Arithmetic
  import opened Bytes
  import opened Memory
  import opened SnappyFormat
  import opened SnappyMatch
  import opened SnappyEmit
  import opened SnappyPieces

  /** The bytes emitted so far decode to exactly the input before `nextEmit`. */
  ghost predicate Emitted(enc: seq<byte>, input: seq<byte>, nextEmit: nat) {
    nextEmit <= |input| && Decodes(enc, [], input[..nextEmit])
  }

  /** Every table entry is the last position looked up with its hash. */
  ghost predicate Holds(table: array<uint16>, input: seq<byte>, hash: uint32 -> nat, entered: seq<nat>, ip: nat)
    reads table
  {
    && Looked(input, entered, ip)
    && forall i | 0 <= i < table.Length :: table[i] as int == LastWith(input, hash, entered, i)
  }

  /** Looking up `p` replaces what its bucket held. */
  lemma Enter(input: seq<byte>, hash: uint32 -> nat, entered: seq<nat>, p: nat)
    requires Looked(input, entered, p) && p + 4 <= |input|
    ensures Looked(input, entered + [p], p + 1)
    ensures forall i: nat ::
      LastWith(input, hash, entered + [p], i)
        == if hash(Load32(input, p)) == i then p else LastWith(input, hash, entered, i)
  {
    hide Load32;
    assert (entered + [p])[..|entered|] == entered;
  }

  /** Comparing words is comparing their four bytes. */
  lemma SameWord(s: seq<byte>, p: nat, q: nat)
    requires p + 4 <= |s| && q + 4 <= |s|
    ensures Load32(s, p) == Load32(s, q) <==> SameBytes(s, q, p, 4)
  {
    hide Load32, Le;
    if Load32(s, p) == Load32(s, q) {
      WordsEqual(s, p, q);
    }
    if SameBytes(s, q, p, 4) {
      hide SameBytes;
      SameAt(s, q, p, 4);
      assert s[q] == s[p] && s[q + 1] == s[p + 1] && s[q + 2] == s[p + 2] && s[q + 3] == s[p + 3];
      LoadOf(s, p);
      LoadOf(s, q);
    }
  }

  /** A hash function is usable with a table when every word has a bucket. */
  ghost predicate HashesInto(hash: uint32 -> nat, size: nat) {
    forall w: uint32 :: hash(w) < size
  }

  /** At most 61 bytes out for 60 bytes in, up to `debt` sixtieths of a byte. */
  ghost predicate WithinRate(written: nat, read: nat, debt: nat) {
    60 * written <= 61 * read + debt
  }

  /** How far a block may touch the output: well inside `MaxCompressedLength` of the block. */
  ghost function FragmentReach(n: nat): nat { n + n / 60 + 20 }

  // ---- the three ways the output grows ----

  lemma EmitLiteralKeeps(enc: seq<byte>, piece: seq<byte>, input: seq<byte>, from: nat, to: nat)
    requires Emitted(enc, input, from) && from <= to <= |input| && IsLiteral(piece, input[from..to])
    ensures Emitted(enc + piece, input, to)
  {
    hide Decodes, IsLiteral;
    LiteralDecodes(piece, input[from..to], input[..from]);
    assert input[..from] + input[from..to] == input[..to];
    DecodesJoin(enc, piece, [], input[..from], input[..to]);
  }

  lemma EmitCopyKeeps(enc: seq<byte>, piece: seq<byte>, input: seq<byte>, candidate: nat, base: nat, matched: nat)
    requires Emitted(enc, input, base) && candidate < base && base + matched <= |input|
    requires SameBytes(input, candidate, base, matched)
    requires EncodesCopy(piece, base - candidate, matched)
    ensures Emitted(enc + piece, input, base + matched)
  {
    hide Decodes, CopyFrom, SameBytes;
    MatchIsCopy(input, candidate, base, matched);
    DecodesJoin(enc, piece, [], input[..base], input[..base + matched]);
  }

  /** Where the input repeats itself, copying from the earlier occurrence reproduces it. */
  lemma MatchIsCopy(input: seq<byte>, candidate: nat, base: nat, matched: nat)
    requires candidate < base && base + matched <= |input| && SameBytes(input, candidate, base, matched)
    ensures CopyFrom(input[..base], base - candidate, matched) == input[..base + matched]
  {
    hide CopyFrom;
    var offset, whole := base - candidate, input[..base + matched];
    assert whole[..base] == input[..base];
    SameAt(input, base, candidate, matched);
    forall i | base <= i < |whole|
      ensures whole[i] == whole[i - offset]
    {
      assert input[i] == input[i - base + candidate];
    }
    CopyFromUnique(input[..base], offset, matched, whole);
  }

  /** A literal borrows at most one byte from the rate... */
  lemma RateAfterLiteral(written: nat, read: nat, len: nat)
    requires WithinRate(written, read, 0) && 0 < len <= 0x1_0000
    ensures WithinRate(written + LiteralOverhead(len) + len, read + len, 60)
  {
  }

  /** ...which the copy behind it, at least four bytes long, pays back. */
  lemma RateAfterCopy(written: nat, read: nat, copied: nat, matched: nat)
    requires WithinRate(written, read, 60) && copied < matched
    ensures WithinRate(written + copied, read + matched, 0)
  {
  }

  lemma Room(written: nat, read: nat, n: nat)
    requires WithinRate(written, read, 60) && read <= n
    ensures written + (n - read) + 18 <= FragmentReach(n)
  {
  }

  /** `GetUint32AtOffset(GetEightBytesAt(p), k)`: a shifted 64-bit load is a 32-bit load further on. */
  function GetUint32AtOffset(v: nat, k: nat): (w: uint32)
    requires k <= 4
  {
    v / Pow256(k) % TWO32
  }

  lemma ShiftedLoad(s: seq<byte>, p: nat, k: nat)
    requires p + 8 <= |s| && k <= 4
    ensures GetUint32AtOffset(Load64(s, p), k) == Load32(s, p + k)
  {
    hide Le, Load32;
    var a, b, c, d := s[p], s[p + 1], s[p + 2], s[p + 3];
    var e, f, g, h := s[p + 4], s[p + 5], s[p + 6], s[p + 7];
    LoadOf(s, p);
    LoadOf(s, p + 4);
    LoadOf(s, p + k);
    if k <= 1 {
      if k == 0 {
        Quotient(Load64(s, p), 1, 0, Word(a, b, c, d), Word(e, f, g, h));
      } else {
        Quotient(Load64(s, p), 0x100, a, Word(b, c, d, e), Word(f, g, h, 0));
      }
    } else if k == 2 {
      Quotient(Load64(s, p), 0x1_0000, Word(a, b, 0, 0), Word(c, d, e, f), Word(g, h, 0, 0));
    } else if k == 3 {
      Quotient(Load64(s, p), 0x100_0000, Word(a, b, c, 0), Word(d, e, f, g), h);
    } else {
      Quotient(Load64(s, p), TWO32, Word(a, b, c, d), Word(e, f, g, h), 0);
    }
  }

  /** The word that four bytes make up. */
  ghost function Word(a: byte, b: byte, c: byte, d: byte): (w: uint32) {
    a + 0x100 * (b as int) + 0x1_0000 * (c as int) + 0x100_0000 * (d as int)
  }

  lemma LoadOf(s: seq<byte>, p: nat)
    requires p + 4 <= |s|
    ensures Load32(s, p) == Word(s[p], s[p + 1], s[p + 2], s[p + 3])
  {
  }

  lemma Quotient(v: int, unit: int, below: int, word: int, above: int)
    requires unit > 0 && 0 <= below < unit && 0 <= word < TWO32
    requires v == unit * (word + TWO32 * above) + below
    ensures v / unit % TWO32 == word
  {
    QuotientUnique(v, unit, word + TWO32 * above, below);
  }

  // ---- step 1: scan for a four-byte match ----

  /** Looks for a match from `start` on, at every byte first and at growing strides later.  `None`
      means the scan came too close to the end. */
  method Scan(input: seq<byte>, table: array<uint16>, hash: uint32 -> nat, ipLimit: nat, start: nat, startHash: nat,
              ghost entered: seq<nat>)
    returns (found: Option<(nat, nat)>, ghost enteredNow: seq<nat>)
    requires ipLimit + INPUT_MARGIN_BYTES == |input| <= BLOCK_SIZE && 0 < start <= ipLimit + 1
    requires HashesInto(hash, table.Length) && startHash == hash(Load32(input, start))
    requires Holds(table, input, hash, entered, start)
    modifies table
    ensures Search(found, enteredNow) == FindMatch(input, hash, entered, start, start)
    ensures found.Some? ==> Holds(table, input, hash, enteredNow, found.value.0 + 1)
  {
    hide SameBytes, LastWith, Load32, Looked;
    var skip := 32;
    var nextIp, nextHash := start, startHash;
    enteredNow := entered;
    while true
      invariant start <= nextIp <= ipLimit + 1 && skip == 32 + (nextIp - start)
      invariant nextHash == hash(Load32(input, nextIp))
      invariant Holds(table, input, hash, enteredNow, nextIp)
      invariant FindMatch(input, hash, entered, start, start) == FindMatch(input, hash, enteredNow, start, nextIp)
      decreases ipLimit + 1 - nextIp
    {
      var ip := nextIp;
      var bucket := nextHash;
      var bytesBetweenHashLookups := skip / 32;
      skip := skip + bytesBetweenHashLookups;
      nextIp := ip + bytesBetweenHashLookups;
      if nextIp > ipLimit {
        return None, enteredNow;
      }
      nextHash := hash(Load32(input, nextIp));
      var candidate: nat := table[bucket];
      assert candidate == Candidate(input, hash, enteredNow, ip);
      table[bucket] := ip;
      Enter(input, hash, enteredNow, ip);
      enteredNow := enteredNow + [ip];
      SameWord(input, ip, candidate);
      if Load32(input, ip) == Load32(input, candidate) {
        return Some((ip, candidate)), enteredNow;
      }
      LaterStill(input, enteredNow, ip + 1, nextIp);
    }
  }

  lemma LaterStill(input: seq<byte>, entered: seq<nat>, p: nat, q: nat)
    requires Looked(input, entered, p) && p <= q
    ensures Looked(input, entered, q)
  {
  }

  // ---- step 3: copies, while another match follows at once ----

  /** Emits the copy at `ip` and any that follow directly.  `next` is where scanning goes on, with its
      hash; `None` means the end is too close. */
  method EmitCopies(input: seq<byte>, out: array<byte>, op0: nat, op: nat, table: array<uint16>,
                    hash: uint32 -> nat, ipLimit: nat, start: nat, match0: nat, ghost entered: seq<nat>,
                    ghost pieces: seq<Piece>)
    returns (end: nat, nextEmit: nat, next: Option<nat>, ghost enteredNow: seq<nat>, ghost piecesNow: seq<Piece>)
    requires |input| == ipLimit + INPUT_MARGIN_BYTES <= BLOCK_SIZE && match0 < start < ipLimit
    requires out as object != table as object
    requires HashesInto(hash, table.Length) && Holds(table, input, hash, entered, start + 1)
    requires SameBytes(input, match0, start, 4) && Written(out, op0, op, input, start, 60, pieces)
    modifies out, table
    ensures start < nextEmit <= |input| && Written(out, op0, end, input, nextEmit, 0, piecesNow)
    ensures next.Some? ==> next.value == nextEmit + 1 <= ipLimit && Holds(table, input, hash, enteredNow, next.value)
    ensures pieces + FromMatch(input, hash, entered, start, match0) == piecesNow +
      if next.Some? then FromScan(input, hash, enteredNow, nextEmit, next.value) else Remainder(input, nextEmit)
    ensures OnlyWrites(out, op0, op0 + FragmentReach(|input|))
  {
    hide SameBytes, Written, Load64, Load32, FragmentReach, FromMatch, FromScan, FromCopy, LastWith, Looked;
    var ip: nat, candidate: nat := start, match0;
    end, enteredNow, piecesNow := op, entered, pieces;
    while true
      invariant candidate < ip < ipLimit && start <= ip
      invariant Holds(table, input, hash, enteredNow, ip + 1) && SameBytes(input, candidate, ip, 4)
      invariant Written(out, op0, end, input, ip, 60, piecesNow)
      invariant pieces + FromMatch(input, hash, entered, start, match0) ==
        piecesNow + FromMatch(input, hash, enteredNow, ip, candidate)
      invariant OnlyWrites(out, op0, op0 + FragmentReach(|input|))
      decreases ipLimit - ip
    {
      ghost var base, from := ip, candidate;
      end, ip, piecesNow := EmitMatch(input, out, op0, end, candidate, ip, piecesNow);
      nextEmit := ip;
      OneMatch(input, hash, enteredNow, base, from, ip);
      if ip >= ipLimit {
        NothingBehind(input, hash, enteredNow, ip);
        return end, nextEmit, None, enteredNow, piecesNow;
      }
      OneCopy(input, hash, enteredNow, ip);
      var inputBytes := Load64(input, ip - 1);
      ShiftedLoad(input, ip - 1, 0);
      ShiftedLoad(input, ip - 1, 1);
      LaterStill(input, enteredNow, base + 1, ip - 1);
      Enter(input, hash, enteredNow, ip - 1);
      table[hash(GetUint32AtOffset(inputBytes, 0))] := ip - 1;
      enteredNow := enteredNow + [ip - 1];
      var curHash := hash(GetUint32AtOffset(inputBytes, 1));
      candidate := table[curHash];
      assert candidate == Candidate(input, hash, enteredNow, ip);
      Enter(input, hash, enteredNow, ip);
      table[curHash] := ip;
      enteredNow := enteredNow + [ip];
      SameWord(input, ip, candidate);
      if GetUint32AtOffset(inputBytes, 1) != Load32(input, candidate) {
        return end, nextEmit, Some(ip + 1), enteredNow, piecesNow;
      }
      WrittenWeaker(out, op0, end, input, ip, piecesNow);
    }
  }

  /** A match is a copy and what follows it, by the reference. */
  lemma OneMatch(input: seq<byte>, hash: uint32 -> nat, entered: seq<nat>, p: nat, candidate: nat, ip: nat)
    requires candidate < p && p + INPUT_MARGIN_BYTES < |input| && Looked(input, entered, p + 1)
    requires SameBytes(input, candidate, p, 4) && p + 4 <= ip && ip == p + CommonLength(input, candidate, p)
    ensures Looked(input, entered, ip - 1)
    ensures FromMatch(input, hash, entered, p, candidate) ==
      CopyPieces(p - candidate, ip - p) + FromCopy(input, hash, entered, ip)
  {
    hide SameBytes, CopyPieces, CommonLength, FromCopy;
  }

  lemma NothingBehind(input: seq<byte>, hash: uint32 -> nat, entered: seq<nat>, ip: nat)
    requires 0 < ip <= |input| <= ip + INPUT_MARGIN_BYTES && Looked(input, entered, ip - 1)
    ensures FromCopy(input, hash, entered, ip) == Remainder(input, ip)
  {
  }

  /** What follows a copy, by the reference. */
  lemma OneCopy(input: seq<byte>, hash: uint32 -> nat, entered: seq<nat>, ip: nat)
    requires 0 < ip && ip + INPUT_MARGIN_BYTES < |input| && Looked(input, entered, ip - 1)
    ensures var before := entered + [ip - 1];
      && Looked(input, before, ip) && Looked(input, before + [ip], ip + 1)
      && var candidate := Candidate(input, hash, before, ip);
      FromCopy(input, hash, entered, ip) ==
        if SameBytes(input, candidate, ip, 4) then FromMatch(input, hash, before + [ip], ip, candidate)
        else FromScan(input, hash, before + [ip], ip, ip + 1)
  {
    hide SameBytes, Candidate, FromMatch, FromScan;
  }

  /** What has been emitted stands for the input before `read`, keeps within the rate, and is these pieces. */
  ghost predicate Written(out: array<byte>, op0: nat, end: nat, input: seq<byte>, read: nat, debt: nat,
                          pieces: seq<Piece>)
    reads out
  {
    && op0 <= end <= out.Length && op0 + FragmentReach(|input|) <= out.Length
    && Emitted(out[op0..end], input, read) && WithinRate(end - op0, read, debt)
    && Spells(out[op0..end], input, pieces)
  }

  lemma WrittenWeaker(out: array<byte>, op0: nat, end: nat, input: seq<byte>, read: nat, pieces: seq<Piece>)
    requires Written(out, op0, end, input, read, 0, pieces)
    ensures Written(out, op0, end, input, read, 60, pieces)
  {
    hide Emitted, Spells;
  }

  /** One copy, as long as the match at `base` is. */
  method EmitMatch(input: seq<byte>, out: array<byte>, op0: nat, op: nat, candidate: nat, base: nat,
                   ghost pieces: seq<Piece>)
    returns (end: nat, ip: nat, ghost piecesNow: seq<Piece>)
    requires |input| <= BLOCK_SIZE && candidate < base && base + 4 <= |input|
    requires SameBytes(input, candidate, base, 4) && Written(out, op0, op, input, base, 60, pieces)
    modifies out
    ensures base + 4 <= ip <= |input| && ip == base + CommonLength(input, candidate, base)
    ensures piecesNow == pieces + CopyPieces(base - candidate, ip - base)
    ensures Written(out, op0, end, input, ip, 0, piecesNow)
    ensures OnlyWrites(out, op0, op0 + FragmentReach(|input|))
  {
    hide SameBytes, Emitted, WithinRate, EncodesCopy, IsMatchLength, FragmentReach, Spells, CopyPieces, CommonLength;
    var n, lessThan8 := FindMatchLength64(input, candidate + 4, base + 4, |input|);
    var matched := 4 + n;
    MatchOfLength(input, candidate, base, n);
    Room(op - op0, base, |input|);
    ghost var before := out[op0..op];
    ReachWithinLength(base - candidate, matched);
    end := EmitCopy(out, op, base - candidate, matched, lessThan8, input);
    ip := base + matched;
    piecesNow := pieces + CopyPieces(base - candidate, matched);
    assert out[op0..end] == before + out[op..end] by {
      assert out[op0..op] == before;
    }
    EmitCopyKeeps(before, out[op..end], input, candidate, base, matched);
    RateAfterCopy(op - op0, base, end - op, matched);
    SpellsJoin(before, out[op..end], input, pieces, CopyPieces(base - candidate, matched));
  }

  lemma RateWeaker(written: nat, read: nat)
    requires WithinRate(written, read, 0)
    ensures WithinRate(written, read, 60)
  {
  }

  /** The match found by words behind the first four bytes is the whole one. */
  lemma MatchOfLength(s: seq<byte>, p: nat, q: nat, n: nat)
    requires p < q && q + 4 <= |s| && SameBytes(s, p, q, 4) && IsMatchLength(s, p + 4, q + 4, |s|, n)
    ensures q + 4 + n <= |s| && SameBytes(s, p, q, 4 + n) && CommonLength(s, p, q) == 4 + n
  {
    hide CommonLength;
    Grow(s, p, q, 4, n);
    assert IsMatchLength(s, p, q, |s|, 4 + n);
    MatchLengthUnique(s, p, q, |s|, 4 + n, CommonLength(s, p, q));
  }

  // ---- the whole block ----

  /** Compresses one block behind whatever `out` holds before `op0`. */
  method CompressFragment(input: seq<byte>, out: array<byte>, op0: nat, table: array<uint16>, hash: uint32 -> nat)
    returns (end: nat)
    requires |input| <= BLOCK_SIZE && out as object != table as object
    requires op0 + FragmentReach(|input|) <= out.Length
    requires HashesInto(hash, table.Length) && forall i | 0 <= i < table.Length :: table[i] == 0
    modifies out, table
    ensures op0 <= end <= out.Length && Decodes(out[op0..end], [], input)
    ensures Spells(out[op0..end], input, PiecesOfBlock(input, hash))
    ensures |input| >= 64 && (forall i :: 0 <= i < |input| ==> input[i] == input[0]) ==> 6 * (end - op0) <= |input|
    ensures WithinRate(end - op0, |input|, 60)
    ensures OnlyWrites(out, op0, op0 + FragmentReach(|input|))
  {
    hide Written, FragmentReach, Decodes, Spells, WithinRate, PiecesOfBlock, LastWith;
    ghost var pieces: seq<Piece> := [];
    end := op0;
    var nextEmit := 0;
    if |input| >= INPUT_MARGIN_BYTES {
      end, nextEmit, pieces := CompressUpToMargin(input, out, op0, table, hash);
    } else {
      NothingWritten(out, op0, input);
      ShortBlock(input, hash);
    }
    if nextEmit < |input| {
      end, pieces := EmitLiteralFrom(input, out, op0, end, nextEmit, |input|, false, pieces);
    } else {
      WrittenWeaker(out, op0, end, input, nextEmit, pieces);
      assert pieces + [] == pieces;
    }
    AllWritten(out, op0, end, input, pieces);
    SpelledInSize(out[op0..end], input, pieces);
    if |input| >= 64 && forall i :: 0 <= i < |input| ==> input[i] == input[0] {
      UniformShrinks(input, hash);
    }
  }

  lemma ShortBlock(input: seq<byte>, hash: uint32 -> nat)
    requires |input| < INPUT_MARGIN_BYTES
    ensures PiecesOfBlock(input, hash) == [] + Remainder(input, 0)
  {
  }

  /** The main loop: scans and copies until the margin at the end comes too close. */
  method CompressUpToMargin(input: seq<byte>, out: array<byte>, op0: nat, table: array<uint16>, hash: uint32 -> nat)
    returns (end: nat, nextEmit: nat, ghost pieces: seq<Piece>)
    requires INPUT_MARGIN_BYTES <= |input| <= BLOCK_SIZE && out as object != table as object
    requires op0 + FragmentReach(|input|) <= out.Length
    requires HashesInto(hash, table.Length) && forall i | 0 <= i < table.Length :: table[i] == 0
    modifies out, table
    ensures nextEmit <= |input| && Written(out, op0, end, input, nextEmit, 0, pieces)
    ensures PiecesOfBlock(input, hash) == pieces + Remainder(input, nextEmit)
    ensures OnlyWrites(out, op0, op0 + FragmentReach(|input|))
  {
    hide SameBytes, Written, FragmentReach, FromScan, FromMatch, FindMatch, LastWith, Load32;
    NothingWritten(out, op0, input);
    end, nextEmit, pieces := op0, 0, [];
    ghost var entered: seq<nat> := [];
    var ipLimit := |input| - INPUT_MARGIN_BYTES;
    var ip := 1;
    var nextHash := hash(Load32(input, ip));
    ClearedHolds(table, input, hash);
    while true
      invariant nextEmit < ip <= ipLimit + 1 && nextHash == hash(Load32(input, ip))
      invariant Holds(table, input, hash, entered, ip) && Written(out, op0, end, input, nextEmit, 0, pieces)
      invariant PiecesOfBlock(input, hash) == pieces + FromScan(input, hash, entered, nextEmit, ip)
      invariant OnlyWrites(out, op0, op0 + FragmentReach(|input|))
      decreases ipLimit + 1 - ip
    {
      var found;
      ghost var scanned;
      found, scanned := Scan(input, table, hash, ipLimit, ip, nextHash, entered);
      AfterScan(input, hash, entered, nextEmit, ip);
      if found == None {
        return;
      }
      var (matchIp, candidate) := found.value;
      Regroup(pieces, LiteralPiece(nextEmit, matchIp), FromMatch(input, hash, scanned, matchIp, candidate));
      end, pieces := EmitLiteralFrom(input, out, op0, end, nextEmit, matchIp, true, pieces);
      var next;
      end, nextEmit, next, entered, pieces := EmitCopies(input, out, op0, end, table, hash, ipLimit, matchIp, candidate,
        scanned, pieces);
      if next == None {
        return;
      }
      ip := next.value;
      nextHash := hash(Load32(input, ip));
    }
  }

  lemma ClearedHolds(table: array<uint16>, input: seq<byte>, hash: uint32 -> nat)
    requires forall i | 0 <= i < table.Length :: table[i] == 0
    requires INPUT_MARGIN_BYTES <= |input|
    ensures Holds(table, input, hash, [], 1) && PiecesOfBlock(input, hash) == [] + FromScan(input, hash, [], 0, 1)
  {
    hide FromScan;
  }

  /** What a scan leads to, by the reference. */
  lemma AfterScan(input: seq<byte>, hash: uint32 -> nat, entered: seq<nat>, nextEmit: nat, p: nat)
    requires INPUT_MARGIN_BYTES <= |input| && 0 < p && p + 4 <= |input| && Looked(input, entered, p)
    ensures var search := FindMatch(input, hash, entered, p, p);
      FromScan(input, hash, entered, nextEmit, p) ==
        if search.found == None then Remainder(input, nextEmit)
        else
          var ip, candidate := search.found.value.0, search.found.value.1;
          [LiteralPiece(nextEmit, ip)] + FromMatch(input, hash, search.entered, ip, candidate)
  {
    hide FindMatch, FromMatch;
  }

  /** A literal for the input from `from` to `to`, keeping what is already emitted. */
  method EmitLiteralFrom(input: seq<byte>, out: array<byte>, op0: nat, op: nat, from: nat, to: nat, fast: bool,
                         ghost pieces: seq<Piece>)
    returns (end: nat, ghost piecesNow: seq<Piece>)
    requires from < to <= |input| <= BLOCK_SIZE && (fast ==> to + INPUT_MARGIN_BYTES <= |input|)
    requires Written(out, op0, op, input, from, 0, pieces)
    modifies out
    ensures piecesNow == pieces + [LiteralPiece(from, to)] && Written(out, op0, end, input, to, 60, piecesNow)
    ensures OnlyWrites(out, op0, op0 + FragmentReach(|input|))
  {
    hide Emitted, WithinRate, IsLiteral, FragmentReach, Spells;
    RateWeaker(op - op0, from);
    Room(op - op0, from, |input|);
    RateAfterLiteral(op - op0, from, to - from);
    ghost var before := out[op0..op];
    end := EmitLiteral(out, op, input, from, to - from, fast);
    piecesNow := pieces + [LiteralPiece(from, to)];
    assert out[op0..end] == before + out[op..end] by {
      assert out[op0..op] == before;
    }
    EmitLiteralKeeps(before, out[op..end], input, from, to);
    OneMorePiece(before, out[op..end], input, pieces, LiteralPiece(from, to));
  }

  lemma NothingWritten(out: array<byte>, op0: nat, input: seq<byte>)
    requires op0 + FragmentReach(|input|) <= out.Length
    ensures Written(out, op0, op0, input, 0, 0, [])
  {
    assert out[op0..op0] == [];
  }

  lemma AllWritten(out: array<byte>, op0: nat, end: nat, input: seq<byte>, pieces: seq<Piece>)
    requires Written(out, op0, end, input, |input|, 60, pieces)
    ensures op0 <= end <= out.Length && Decodes(out[op0..end], [], input) && WithinRate(end - op0, |input|, 60)
    ensures Spells(out[op0..end], input, pieces)
  {
    assert input[..|input|] == input;
  }
}
