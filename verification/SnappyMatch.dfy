/** `FindMatchLength`: the length of the longest common prefix, found a word at a time. */
module SnappyMatch {
  import opened Bytes
  import opened Bits

  /** The bytes at `p` and at `q` agree for exactly `n` steps before `limit` (counted from `q`). */
  ghost predicate IsMatchLength(s: seq<byte>, p: nat, q: nat, limit: nat, n: nat)
    requires p <= q <= limit <= |s|
  {
    && q + n <= limit
    && SameBytes(s, p, q, n)
    && (q + n < limit ==> s[p + n] != s[q + n])
  }

  /** There is only one such length, so any two ways of finding it agree. */
  lemma MatchLengthUnique(s: seq<byte>, p: nat, q: nat, limit: nat, m: nat, n: nat)
    requires p <= q <= limit <= |s|
    requires IsMatchLength(s, p, q, limit, m) && IsMatchLength(s, p, q, limit, n)
    ensures m == n
  {
    SameAt(s, p, q, n);
    SameAt(s, p, q, m);
  }

  ghost predicate SameBytes(s: seq<byte>, p: nat, q: nat, n: nat)
    requires p + n <= |s| && q + n <= |s|
  {
    s[p..p + n] == s[q..q + n]
  }

  lemma SameAt(s: seq<byte>, p: nat, q: nat, n: nat)
    requires p + n <= |s| && q + n <= |s| && SameBytes(s, p, q, n)
    ensures forall i | p <= i < p + n :: s[i] == s[i - p + q]
  {
    forall i | p <= i < p + n
      ensures s[i] == s[i - p + q]
    {
      assert s[i] == s[p..p + n][i - p] == s[q..q + n][i - p];
    }
  }

  /** Joining matched stretches, and splitting one. */
  lemma SameBytesJoin(s: seq<byte>, p: nat, q: nat, m: nat, n: nat)
    requires p + m + n <= |s| && q + m + n <= |s|
    ensures SameBytes(s, p, q, m + n) <==> SameBytes(s, p, q, m) && SameBytes(s, p + m, q + m, n)
  {
    var a, b := s[p..p + m + n], s[q..q + m + n];
    assert a == s[p..p + m] + s[p + m..p + m + n];
    assert b == s[q..q + m] + s[q + m..q + m + n];
    assert a[..m] == s[p..p + m] && a[m..] == s[p + m..p + m + n];
    assert b[..m] == s[q..q + m] && b[m..] == s[q + m..q + m + n];
  }

  lemma SameByte(s: seq<byte>, p: nat, q: nat)
    requires p < |s| && q < |s|
    ensures SameBytes(s, p, q, 1) <==> s[p] == s[q]
  {
    assert s[p..p + 1] == [s[p]] && s[q..q + 1] == [s[q]];
  }

  /** The first difference of two unequal words of `width` bytes is at byte `j`. */
  ghost predicate DifferAt(s: seq<byte>, p: nat, q: nat, width: nat, j: nat)
    requires p + width <= |s| && q + width <= |s|
  {
    j < width && SameBytes(s, p, q, j) && s[p + j] != s[q + j]
  }

  function Load64(s: seq<byte>, p: nat): (v: nat)
    requires p + 8 <= |s|
    ensures v < TWO32 * TWO32
  {
    Load32(s, p) + TWO32 * (Load32(s, p + 4) as int)
  }

  lemma LeStep(s: seq<byte>, p: nat, k: nat)
    requires k < 4 && p + k + 1 <= |s|
    ensures Le(s, p, k + 1) == Le(s, p, k) + Pow256(k) * s[p + k]
  {
  }

  lemma LeSameEmpty(s: seq<byte>, p: nat, q: nat)
    requires p <= |s| && q <= |s|
    ensures Le(s, p, 0) == Le(s, q, 0) && SameBytes(s, p, q, 0)
  {
  }

  lemma {:induction false} LeSame(s: seq<byte>, p: nat, q: nat, k: nat)
    requires k <= 4 && p + k <= |s| && q + k <= |s|
    ensures Le(s, p, k) == Le(s, q, k) <==> SameBytes(s, p, q, k)
  {
    hide Le, SameBytes, Pow256;
    if k == 0 {
      LeSameEmpty(s, p, q);
    } else {
      LeStep(s, p, k - 1);
      LeStep(s, q, k - 1);
      LeSame(s, p, q, k - 1);
      LastDigit(Pow256(k - 1), Le(s, p, k - 1), s[p + k - 1], Le(s, q, k - 1), s[q + k - 1]);
      SameBytesJoin(s, p, q, k - 1, 1);
      SameByte(s, p + k - 1, q + k - 1);
    }
  }

  lemma LastDigit(m: nat, a: nat, x: byte, b: nat, y: byte)
    requires a < m && b < m
    ensures a + m * x == b + m * y <==> a == b && x == y
  {
    var d := x - y;
    assert a + m * x - (b + m * y) == a - b + m * d;
    MulGap(m, d);
  }

  /** Low bits of a loaded word are the low bytes in memory. */
  lemma LowOfLoad(s: seq<byte>, p: nat, q: nat, k: nat)
    requires k <= 4 && p + 4 <= |s| && q + 4 <= |s|
    ensures Low(Load32(s, p), 8 * k) == Low(Load32(s, q), 8 * k) <==> SameBytes(s, p, q, k)
  {
    hide Le, Load32, Low, SameBytes;
    LowIsRemainder(Load32(s, p));
    LowIsRemainder(Load32(s, q));
    MaskedLoad(s, p, k);
    MaskedLoad(s, q, k);
    LeSame(s, p, q, k);
  }

  /** The lowest set bit of the exclusive or of two words points into their first unequal byte. */
  lemma WordDifference(s: seq<byte>, p: nat, q: nat)
    requires p + 4 <= |s| && q + 4 <= |s| && Load32(s, p) != Load32(s, q)
    ensures DifferAt(s, p, q, 4, TrailingZeros(Xor(Load32(s, p), Load32(s, q))) / 8)
  {
    hide Le, Load32, Low, Xor, TrailingZeros, SameBytes;
    var a, b := Load32(s, p), Load32(s, q);
    var t := TrailingZeros(Xor(a, b));
    Pow2Of32();
    XorBelow(a, b, 32);
    TrailingZerosBelow(Xor(a, b), 32);
    var j := t / 8;
    BytesUpTo(s, p, q, j);
    BytesUpTo(s, p, q, j + 1);
    SameBytesJoin(s, p, q, j, 1);
    SameByte(s, p + j, q + j);
  }

  /** The lowest set bit lies above the first `k` bytes exactly when those are equal. */
  lemma BytesUpTo(s: seq<byte>, p: nat, q: nat, k: nat)
    requires k <= 4 && p + 4 <= |s| && q + 4 <= |s| && Load32(s, p) != Load32(s, q)
    ensures 8 * k <= TrailingZeros(Xor(Load32(s, p), Load32(s, q))) <==> SameBytes(s, p, q, k)
  {
    hide Le, Load32, Low, Xor, TrailingZeros, SameBytes;
    XorSplits(Load32(s, p), Load32(s, q), 8 * k);
    LowOfLoad(s, p, q, k);
  }

  lemma XorHalves(a: nat, b: nat)
    requires a % 2 == b % 2
    ensures Xor(a, b) == 2 * Xor(a / 2, b / 2)
  {
    hide Xor;
    XorStep(a, b);
    assert a % 2 == 0 || a % 2 == 1;
  }

  lemma {:induction false} XorStep(a: nat, b: nat)
    ensures Xor(a, b) == if a == 0 && b == 0 then 0 else (a % 2 + b % 2) % 2 + 2 * Xor(a / 2, b / 2)
  {
  }

  lemma {:induction false} XorOfHigh(a: nat, b: nat, k: nat)
    requires Low(a, k) == Low(b, k)
    ensures Xor(a, b) == Xor(Shr(a, k), Shr(b, k)) * Pow2(k)
  {
    if k > 0 {
      XorOfHigh(a / 2, b / 2, k - 1);
      ShrHalf(a, k - 1);
      ShrHalf(b, k - 1);
      assert a % 2 == b % 2;
      XorHalves(a, b);
      Doubled(Pow2(k - 1), Xor(Shr(a, k), Shr(b, k)));
    }
  }

  /** The lowest bit and the rest of an exclusive or. */
  lemma XorBits(a: nat, b: nat)
    ensures Xor(a, b) % 2 == (if a % 2 == b % 2 then 0 else 1) && Xor(a, b) / 2 == Xor(a / 2, b / 2)
  {
    hide Xor;
    XorStep(a, b);
  }

  lemma {:induction false} XorOfLow(a: nat, b: nat, k: nat)
    ensures Low(Xor(a, b), k) == Xor(Low(a, k), Low(b, k))
  {
    hide Xor;
    XorStep(0, 0);
    if k > 0 {
      XorOfLow(a / 2, b / 2, k - 1);
      XorBits(a, b);
      XorBits(Low(a, k), Low(b, k));
    }
  }

  lemma HalvesOfLoad64(s: seq<byte>, p: nat)
    requires p + 8 <= |s|
    ensures Low(Load64(s, p), 32) == Load32(s, p) && Shr(Load64(s, p), 32) == Load32(s, p + 4)
  {
    hide Load32, Low, Shr;
    LowIsRemainder(Load64(s, p));
    LowAndHigh(Load64(s, p), 32);
    Pow2Of32();
  }

  /** The same for 64-bit words: the difference lies in the lower half unless the halves agree. */
  lemma LongWordDifference(s: seq<byte>, p: nat, q: nat)
    requires p + 8 <= |s| && q + 8 <= |s| && Load64(s, p) != Load64(s, q)
    ensures DifferAt(s, p, q, 8, TrailingZeros(Xor(Load64(s, p), Load64(s, q))) / 8)
  {
    hide Le, Load32, Low, Xor, TrailingZeros, Shr, Pow2;
    var a, b := Load64(s, p), Load64(s, q);
    HalvesOfLoad64(s, p);
    HalvesOfLoad64(s, q);
    if Load32(s, p) != Load32(s, q) {
      XorOfLow(a, b, 32);
      LowTrailingZeros(Xor(a, b), 32);
      WordDifference(s, p, q);
    } else {
      LowOfLoad(s, p, q, 4);
      XorOfHigh(a, b, 32);
      ShiftedTrailingZeros(Xor(Load32(s, p + 4), Load32(s, q + 4)), 32);
      WordDifference(s, p + 4, q + 4);
      DifferLater(s, p, q, TrailingZeros(Xor(Load32(s, p + 4), Load32(s, q + 4))) / 8);
    }
  }

  lemma DifferLater(s: seq<byte>, p: nat, q: nat, j: nat)
    requires p + 8 <= |s| && q + 8 <= |s|
    requires SameBytes(s, p, q, 4) && DifferAt(s, p + 4, q + 4, 4, j)
    ensures DifferAt(s, p, q, 8, 4 + j)
  {
    SameBytesJoin(s, p, q, 4, j);
  }

  lemma LongWordsEqual(s: seq<byte>, p: nat, q: nat)
    requires p + 8 <= |s| && q + 8 <= |s| && Load64(s, p) == Load64(s, q)
    ensures SameBytes(s, p, q, 8)
  {
    hide Le, Load32, Low, Shr, Load64;
    HalvesOfLoad64(s, p);
    HalvesOfLoad64(s, q);
    LowOfLoad(s, p, q, 4);
    LowOfLoad(s, p + 4, q + 4, 4);
    SameBytesJoin(s, p, q, 4, 4);
  }

  /** Extending a matched stretch by equal bytes. */
  lemma Grow(s: seq<byte>, p: nat, q: nat, n: nat, k: nat)
    requires p + n + k <= |s| && q + n + k <= |s|
    requires SameBytes(s, p, q, n) && SameBytes(s, p + n, q + n, k)
    ensures SameBytes(s, p, q, n + k)
  {
    SameBytesJoin(s, p, q, n, k);
  }

  /** A difference behind a matched stretch ends the match. */
  lemma Finish(s: seq<byte>, p: nat, q: nat, limit: nat, n: nat, width: nat, j: nat)
    requires p <= q && q + n + width <= limit <= |s| && SameBytes(s, p, q, n)
    requires DifferAt(s, q + n, p + n, width, j)
    ensures IsMatchLength(s, p, q, limit, n + j)
  {
    SameBytesJoin(s, p, q, n, j);
  }

  /** The 64-bit variant.  The flag says whether the length is below eight. */
  method FindMatchLength64(s: seq<byte>, s1: nat, s2Start: nat, s2Limit: nat) returns (n: nat, lessThan8: bool)
    requires s1 < s2Start <= s2Limit <= |s|
    ensures IsMatchLength(s, s1, s2Start, s2Limit, n)
    ensures lessThan8 <==> n < 8
  {
    hide SameBytes, DifferAt, IsMatchLength;
    var s2, matched := s2Start, 0;
    SameNothing(s, s1, s2);
    if s2 <= s2Limit - 8 {
      var difference := CompareWords64(s, s2, s1);
      if difference.Some? {
        Finish(s, s1, s2Start, s2Limit, 0, 8, difference.value);
        return difference.value, true;
      } else {
        matched := 8;
        s2 := s2 + 8;
      }
    }
    while s2 <= s2Limit - 8
      invariant s2 == s2Start + matched <= s2Limit && (matched >= 8 || s2 > s2Limit - 8)
      invariant SameBytes(s, s1, s2Start, matched)
    {
      var difference := CompareWords64(s, s2, s1 + matched);
      if difference == None {
        Grow(s, s1, s2Start, matched, 8);
        s2 := s2 + 8;
        matched := matched + 8;
      } else {
        Finish(s, s1, s2Start, s2Limit, matched, 8, difference.value);
        matched := matched + difference.value;
        return matched, false;
      }
    }
    n := MatchBytes(s, s1, s2Start, s2Limit, matched);
    return n, n < 8;
  }

  /** The 32-bit variant, used where 64-bit loads are not. */
  method FindMatchLength32(s: seq<byte>, s1: nat, s2Start: nat, s2Limit: nat) returns (n: nat, lessThan8: bool)
    requires s1 < s2Start <= s2Limit <= |s|
    ensures IsMatchLength(s, s1, s2Start, s2Limit, n)
    ensures lessThan8 <==> n < 8
  {
    hide SameBytes, DifferAt, IsMatchLength;
    var s2, matched := s2Start, 0;
    SameNothing(s, s1, s2);
    while s2 <= s2Limit - 4 && Load32(s, s2) == Load32(s, s1 + matched)
      invariant s2 == s2Start + matched <= s2Limit
      invariant SameBytes(s, s1, s2Start, matched)
    {
      WordsEqual(s, s2, s1 + matched);
      Grow(s, s1, s2Start, matched, 4);
      s2 := s2 + 4;
      matched := matched + 4;
    }
    if s2 <= s2Limit - 4 {
      var matchingBits := FindLSBSetNonZero(Xor32(s, s2, s1 + matched));
      WordDifference(s, s2, s1 + matched);
      Finish(s, s1, s2Start, s2Limit, matched, 4, matchingBits / 8);
      matched := matched + matchingBits / 8;
      return matched, matched < 8;
    }
    n := MatchBytes(s, s1, s2Start, s2Limit, matched);
    return n, n < 8;
  }

  /** The byte-wise tail both variants end in. */
  method MatchBytes(s: seq<byte>, s1: nat, s2Start: nat, s2Limit: nat, start: nat) returns (matched: nat)
    requires s1 < s2Start && s2Start + start <= s2Limit <= |s| && SameBytes(s, s1, s2Start, start)
    ensures IsMatchLength(s, s1, s2Start, s2Limit, matched)
  {
    matched := start;
    while s2Start + matched < s2Limit && s[s1 + matched] == s[s2Start + matched]
      invariant s2Start + matched <= s2Limit
      invariant SameBytes(s, s1, s2Start, matched)
    {
      SameByte(s, s1 + matched, s2Start + matched);
      Grow(s, s1, s2Start, matched, 1);
      matched := matched + 1;
    }
  }

  /** The byte offset of the first difference of two 64-bit words, by exclusive or and bit scan. */
  method CompareWords64(s: seq<byte>, p: nat, q: nat) returns (j: Option<nat>)
    requires p + 8 <= |s| && q + 8 <= |s|
    ensures j == None ==> SameBytes(s, q, p, 8)
    ensures j.Some? ==> j.value < 8 && DifferAt(s, p, q, 8, j.value)
  {
    hide Load64, Xor, TrailingZeros, Pow2;
    var a, b := Load64(s, p), Load64(s, q);
    if a == b {
      LongWordsEqual(s, q, p);
      return None;
    }
    Xor64(a, b);
    LongWordDifference(s, p, q);
    var bits := FindLSBSetNonZero64(Xor(a, b));
    return Some(bits / 8);
  }

  function Xor32(s: seq<byte>, p: nat, q: nat): (x: uint32)
    requires p + 4 <= |s| && q + 4 <= |s|
  {
    Pow2Of32();
    XorBelow(Load32(s, p), Load32(s, q), 32);
    Xor(Load32(s, p), Load32(s, q))
  }

  lemma WordsEqual(s: seq<byte>, p: nat, q: nat)
    requires p + 4 <= |s| && q + 4 <= |s| && Load32(s, p) == Load32(s, q)
    ensures SameBytes(s, q, p, 4)
  {
    LowOfLoad(s, q, p, 4);
  }

  lemma Xor64(a: nat, b: nat)
    requires a < TWO32 * TWO32 && b < TWO32 * TWO32
    ensures Xor(a, b) < TWO32 * TWO32
  {
    hide Xor;
    Pow2Of64();
    XorBelow(a, b, 64);
  }

  lemma SameNothing(s: seq<byte>, p: nat, q: nat)
    requires p <= |s| && q <= |s|
    ensures SameBytes(s, p, q, 0)
  {
  }
}
