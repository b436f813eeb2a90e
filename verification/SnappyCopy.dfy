/** Overlapping copies: the byte-wise loop, and the fast form that must leave the same bytes. */
module SnappyCopy {
  import opened Bytes
  import opened Memory
  import opened SnappyFormat

  /** From `op0` to `op` every byte repeats the one `period` before it. */
  ghost predicate Repeats(s: seq<byte>, period: nat, op0: nat, op: nat) {
    period <= op0 && op <= |s| && forall i | op0 <= i < op :: s[i] == s[i - period]
  }

  /** Reading on at `src` continues the pattern that ends at `op`. */
  ghost predicate Continues(s: seq<byte>, period: nat, src: nat, op: nat) {
    src + period <= op <= |s| && forall i | src <= i < src + period :: s[i] == s[op - period + (i - src)]
  }

  /** The next `n` bytes at `op` are those at `src`. */
  ghost predicate Copied(s: seq<byte>, src: nat, op: nat, n: nat) {
    src <= op && op + n <= |s| && forall i | op <= i < op + n :: s[i] == s[src + (i - op)]
  }

  // ---- why a copied stretch extends the pattern ----

  lemma OneByte(s: seq<byte>, period: nat, op0: nat, src: nat, op: nat)
    requires 0 < period && op0 <= src + period && src < op < |s| && s[op] == s[src]
    requires Repeats(s, period, op0, op) && Continues(s, period, src, op)
    ensures Repeats(s, period, op0, op + 1) && Continues(s, period, src + 1, op + 1)
  {
    forall i | src + 1 <= i < src + 1 + period
      ensures s[i] == s[op + 1 - period + (i - (src + 1))]
    {
      if i < src + period {
        assert s[i] == s[op - period + (i - src)];
      } else if i < op {
        assert s[i] == s[i - period];
      }
    }
  }

  /** Copying `n` bytes that lie before `op` is `n` single steps. */
  lemma {:induction false} Steps(s: seq<byte>, period: nat, op0: nat, src: nat, op: nat, n: nat)
    requires 0 < period && op0 <= src + period && Copied(s, src, op, n)
    requires Repeats(s, period, op0, op) && Continues(s, period, src, op)
    ensures Repeats(s, period, op0, op + n) && Continues(s, period, src + n, op + n)
    decreases n
  {
    if n > 0 {
      assert s[op] == s[src];
      OneByte(s, period, op0, src, op);
      Steps(s, period, op0, src + 1, op + 1, n - 1);
    }
  }

  /** Doubling: a copy of everything from `src` to `op` can be continued from `src` again. */
  lemma Doubling(s: seq<byte>, period: nat, src: nat, op: nat)
    requires 0 < period && Continues(s, period, src, op) && Copied(s, src, op, op - src)
    ensures Continues(s, period, src, op + (op - src))
  {
    var end := op + (op - src);
    forall i | src <= i < src + period
      ensures s[i] == s[end - period + (i - src)]
    {
      var j := end - period + (i - src);
      assert s[j] == s[src + (j - op)] == s[op - period + (i - src)];
    }
  }

  // ---- the copies ----

  /** A byte at a time. */
  method IncrementalCopySlow(a: array<byte>, srcStart: nat, opStart: nat, opLimit: nat)
    requires srcStart < opStart <= a.Length && opLimit <= a.Length
    modifies a
    ensures Copied(a[..], srcStart, opStart, if opStart < opLimit then opLimit - opStart else 0)
    ensures OnlyWrites(a, opStart, opLimit)
  {
    var src, op := srcStart, opStart;
    while op < opLimit
      invariant op - src == opStart - srcStart && opStart <= op && (op <= opLimit || op == opStart)
      invariant forall i | opStart <= i < op :: a[i] == a[srcStart + (i - opStart)]
      invariant OnlyWrites(a, opStart, op)
    {
      a[op] := a[src];
      op := op + 1;
      src := src + 1;
    }
  }

  /** Eight bytes through a temporary, so the regions may overlap. */
  method UnalignedCopy64(a: array<byte>, src: nat, op: nat)
    requires src < op && op + 8 <= a.Length
    modifies a
    ensures Copied(a[..], src, op, if op - src < 8 then op - src else 8)
    ensures OnlyWrites(a, op, op + 8)
  {
    var tmp := a[src..src + 8];
    forall j | 0 <= j < 8 {
      a[op + j] := tmp[j];
    }
    assert forall i | op <= i < op + 8 :: a[i] == tmp[i - op];
  }

  /** Unchanged bytes keep a pattern. */
  lemma KeptBefore(s: seq<byte>, t: seq<byte>, period: nat, op0: nat, src: nat, op: nat)
    requires |s| == |t| && op <= |s| && s[..op] == t[..op]
    requires Repeats(s, period, op0, op) && Continues(s, period, src, op)
    ensures Repeats(t, period, op0, op) && Continues(t, period, src, op)
  {
    assert forall i | 0 <= i < op :: s[i] == s[..op][i] == t[i];
  }

  /** The fast form.  `bufLimit` is where the writable region ends. */
  method IncrementalCopy(a: array<byte>, srcStart: nat, opStart: nat, opLimit: nat, bufLimit: nat)
    requires srcStart < opStart <= opLimit <= bufLimit <= a.Length
    modifies a
    ensures Repeats(a[..], opStart - srcStart, opStart, opLimit)
    ensures OnlyWrites(a, opStart, bufLimit)
  {
    hide Repeats, Continues, Copied;
    ghost var period := opStart - srcStart;
    var src, op := srcStart, opStart;
    var patternSize := op - src;
    PatternStarts(a[..], period, op);
    if patternSize < 8 {
      if op <= bufLimit - 14 {
        while patternSize < 8
          invariant src == srcStart && op == src + patternSize && period <= patternSize <= 14
          invariant Repeats(a[..], period, opStart, op) && Continues(a[..], period, src, op)
          invariant OnlyWrites(a, opStart, bufLimit)
        {
          op := Expand(a, src, op, period, opStart);
          patternSize := patternSize * 2;
        }
        if op >= opLimit {
          Shorten(a[..], period, opStart, op, opLimit);
          return;
        }
      } else {
        SlowTail(a, src, op, opLimit, period, opStart);
        return;
      }
    }
    while op <= bufLimit - 16
      invariant patternSize == op - src >= 8 && period <= patternSize && opStart <= op <= bufLimit && srcStart <= src
      invariant Repeats(a[..], period, opStart, op) && Continues(a[..], period, src, op)
      invariant OnlyWrites(a, opStart, bufLimit)
    {
      Forward(a, src, op, period, opStart);
      Forward(a, src + 8, op + 8, period, opStart);
      src := src + 16;
      op := op + 16;
      if op >= opLimit {
        Shorten(a[..], period, opStart, op, opLimit);
        return;
      }
    }
    if op <= bufLimit - 8 {
      Forward(a, src, op, period, opStart);
      src := src + 8;
      op := op + 8;
    }
    SlowTail(a, src, op, opLimit, period, opStart);
  }

  /** One doubling step: eight bytes are written, `op - src` of them count. */
  method Expand(a: array<byte>, src: nat, op: nat, ghost period: nat, ghost op0: nat) returns (end: nat)
    requires 0 < period <= op - src < 8 && src < op && op + 8 <= a.Length && op0 <= src + period
    requires Repeats(a[..], period, op0, op) && Continues(a[..], period, src, op)
    modifies a
    ensures end == op + (op - src)
    ensures Repeats(a[..], period, op0, end) && Continues(a[..], period, src, end)
    ensures OnlyWrites(a, op, op + 8)
  {
    hide Repeats, Continues, Copied;
    ghost var before := a[..];
    UnalignedCopy64(a, src, op);
    KeptBefore(before, a[..], period, op0, src, op);
    Steps(a[..], period, op0, src, op, op - src);
    Doubling(a[..], period, src, op);
    end := op + (op - src);
  }

  /** One eight-byte step, with the source at least eight bytes behind. */
  method Forward(a: array<byte>, src: nat, op: nat, ghost period: nat, ghost op0: nat)
    requires 0 < period && src + 8 <= op && op + 8 <= a.Length && op0 <= src + period
    requires Repeats(a[..], period, op0, op) && Continues(a[..], period, src, op)
    modifies a
    ensures Repeats(a[..], period, op0, op + 8) && Continues(a[..], period, src + 8, op + 8)
    ensures OnlyWrites(a, op, op + 8)
  {
    hide Repeats, Continues, Copied;
    ghost var before := a[..];
    UnalignedCopy64(a, src, op);
    KeptBefore(before, a[..], period, op0, src, op);
    Steps(a[..], period, op0, src, op, 8);
  }

  /** The byte-wise rest, which may be empty because `op` already passed the limit. */
  method SlowTail(a: array<byte>, src: nat, op: nat, opLimit: nat, ghost period: nat, ghost op0: nat)
    requires 0 < period && src < op && op0 <= op && op0 <= opLimit <= a.Length && op <= a.Length && op0 <= src + period
    requires Repeats(a[..], period, op0, op) && Continues(a[..], period, src, op)
    modifies a
    ensures Repeats(a[..], period, op0, opLimit)
    ensures OnlyWrites(a, op, opLimit)
  {
    hide Repeats, Continues, Copied;
    ghost var before := a[..];
    ghost var n := if op < opLimit then opLimit - op else 0;
    IncrementalCopySlow(a, src, op, opLimit);
    KeptBefore(before, a[..], period, op0, src, op);
    Steps(a[..], period, op0, src, op, n);
    Shorten(a[..], period, op0, op + n, opLimit);
  }

  lemma PatternStarts(s: seq<byte>, period: nat, op: nat)
    requires 0 < period <= op <= |s|
    ensures Repeats(s, period, op, op) && Continues(s, period, op - period, op)
  {
  }

  lemma Shorten(s: seq<byte>, period: nat, op0: nat, op: nat, limit: nat)
    requires Repeats(s, period, op0, op) && limit <= op
    ensures Repeats(s, period, op0, limit)
  {
  }

  // ---- what a repeated pattern is ----

  /** The bytes a copy leaves are those of the reference: `CopyFrom` of what stood before `op`. */
  lemma RepeatsIsCopy(s: seq<byte>, base: nat, offset: nat, op: nat, end: nat)
    requires 0 < offset && base + offset <= op <= end && Repeats(s, offset, op, end)
    ensures s[base..end] == CopyFrom(s[base..op], offset, end - op)
  {
    hide CopyFrom;
    var r := s[base..end];
    assert r[..op - base] == s[base..op];
    forall i | op - base <= i < |r|
      ensures r[i] == r[i - offset]
    {
      assert s[base + i] == s[base + i - offset];
    }
    CopyFromUnique(s[base..op], offset, end - op, r);
  }

  /** Starting from the same bytes before `op`, any two copies of this kind agree up to `end`: in
      particular the fast form and the byte-wise loop. */
  lemma {:induction false} CopiesAgree(s: seq<byte>, t: seq<byte>, period: nat, op: nat, end: nat)
    requires 0 < period && |s| == |t| && op <= end <= |s| && s[..op] == t[..op]
    requires Repeats(s, period, op, end) && Repeats(t, period, op, end)
    ensures s[..end] == t[..end]
    decreases end
  {
    if op < end {
      CopiesAgree(s, t, period, op, end - 1);
      assert s[end - 1 - period] == s[..end - 1][end - 1 - period] == t[end - 1 - period];
    }
  }
}
