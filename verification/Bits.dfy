/** The bit-manipulation helpers of the codec: shifts that drop bits, exclusive or, and the two
    portable bit scans, each proved against a definition by single bits. */
module Bits {
  import opened Arithmetic
  import opened Bytes

  ghost function Pow2(n: nat): (v: nat)
    ensures v > 0
  {
    if n == 0 then 1 else 2 * Pow2(n - 1)
  }

  /** `value << shift` on a 32-bit word: the bits that leave the word are lost. */
  function Shl(value: uint32, shift: nat): uint32 {
    if shift == 0 then value else Shl(value, shift - 1) * 2 % TWO32
  }

  function Shr(value: nat, shift: nat): nat {
    if shift == 0 then value else Shr(value, shift - 1) / 2
  }

  function Xor(a: nat, b: nat): (v: nat)
    ensures v == 0 <==> a == b
  {
    if a == 0 && b == 0 then 0 else (a % 2 + b % 2) % 2 + 2 * Xor(a / 2, b / 2)
  }

  /** The position of the lowest set bit. */
  ghost function TrailingZeros(n: nat): nat
    requires n > 0
  {
    if n % 2 == 1 then 0 else 1 + TrailingZeros(n / 2)
  }

  // ---- left shifts and trailing zeros ----

  lemma {:induction false} TrailingZerosBelow(n: nat, k: nat)
    requires 0 < n < Pow2(k)
    ensures TrailingZeros(n) < k
  {
    if n % 2 == 0 {
      TrailingZerosBelow(n / 2, k - 1);
    }
  }

  /** Removing a leading bit does not move the lowest one. */
  lemma {:induction false} DropTopBit(n: nat, k: nat)
    requires Pow2(k) < n < 2 * Pow2(k)
    ensures TrailingZeros(n - Pow2(k)) == TrailingZeros(n)
  {
    if n % 2 == 0 {
      DropTopBit(n / 2, k - 1);
      assert (n - Pow2(k)) / 2 == n / 2 - Pow2(k - 1);
    }
  }

  lemma Pow2Of32()
    ensures Pow2(8) == 0x100 && Pow2(16) == 0x1_0000 && Pow2(24) == 0x100_0000
    ensures Pow2(31) == 0x8000_0000 && Pow2(32) == TWO32
  {
    assert Pow2(4) == 16 && Pow2(8) == 256;
    assert Pow2(12) == 0x1000 && Pow2(16) == 0x1_0000;
    assert Pow2(20) == 0x10_0000 && Pow2(24) == 0x100_0000;
    assert Pow2(28) == 0x1000_0000 && Pow2(31) == 0x8000_0000;
  }

  lemma Pow2Of64()
    ensures Pow2(64) == TWO32 * TWO32
  {
    Pow2Of32();
    assert Pow2(36) == 0x10 * TWO32 && Pow2(40) == 0x100 * TWO32;
    assert Pow2(44) == 0x1000 * TWO32 && Pow2(48) == 0x1_0000 * TWO32;
    assert Pow2(52) == 0x10_0000 * TWO32 && Pow2(56) == 0x100_0000 * TWO32;
    assert Pow2(60) == 0x1000_0000 * TWO32;
  }

  /** One place to the left, with the top bit lost. */
  lemma ShlOnce(w: uint32)
    requires w > 0
    ensures w * 2 % TWO32 == 0 <==> TrailingZeros(w) >= 31
    ensures w * 2 % TWO32 > 0 ==> TrailingZeros(w * 2 % TWO32) == TrailingZeros(w) + 1
  {
    hide TrailingZeros, Pow2;
    Pow2Of32();
    var top := Pow2(31);
    assert 2 * top == TWO32 by { Pow2Step(31); }
    DoubledWord(w, top);
    if w < top {
      TrailingZerosBelow(w, 31);
      TrailingZerosDouble(w);
    } else if w == top {
      TrailingZerosOfPow2(31);
    } else {
      DropTopBit(w, 31);
      TrailingZerosBelow(w - top, 31);
      TrailingZerosDouble(w - top);
    }
  }

  lemma Pow2Step(k: nat)
    ensures Pow2(k + 1) == 2 * Pow2(k)
  {
  }

  lemma DoubledWord(w: uint32, top: nat)
    requires 2 * top == TWO32
    ensures w * 2 % TWO32 == if w < top then 2 * w else 2 * (w - top)
  {
  }

  lemma TrailingZerosDouble(n: nat)
    requires n > 0
    ensures TrailingZeros(2 * n) == TrailingZeros(n) + 1
  {
    assert 2 * n / 2 == n;
  }

  /** A left shift either moves the lowest set bit up or shifts every bit out. */
  lemma {:induction false} ShlTrailingZeros(n: uint32, s: nat)
    requires n > 0
    ensures Shl(n, s) == 0 <==> TrailingZeros(n) + s >= 32
    ensures Shl(n, s) > 0 ==> TrailingZeros(Shl(n, s)) == TrailingZeros(n) + s
  {
    if s == 0 {
      Pow2Of32();
      TrailingZerosBelow(n, 32);
    } else {
      ShlTrailingZeros(n, s - 1);
      if Shl(n, s - 1) > 0 {
        ShlOnce(Shl(n, s - 1));
      }
    }
  }

  lemma {:induction false} TrailingZerosOfPow2(k: nat)
    ensures TrailingZeros(Pow2(k)) == k
  {
    if k > 0 {
      TrailingZerosOfPow2(k - 1);
      assert Pow2(k) / 2 == Pow2(k - 1);
    }
  }

  lemma {:induction false} ShrSum(n: nat, s: nat, t: nat)
    ensures Shr(Shr(n, s), t) == Shr(n, s + t)
  {
    if t > 0 {
      ShrSum(n, s, t - 1);
    }
  }

  /** A right shift divides: its result is below `Pow2(k)` exactly when the word is below the
      power `s` places up. */
  lemma {:induction false} ShrBound(n: nat, s: nat, k: nat)
    ensures Shr(n, s) < Pow2(k) <==> n < Pow2(k + s)
  {
    if s > 0 {
      ShrBound(n, s - 1, k + 1);
      assert Shr(n, s) < Pow2(k) <==> Shr(n, s - 1) < Pow2(k + 1);
    }
  }

  /** One step of the scan: what is above `shift` places, and whether that is nothing. */
  lemma HalfScan(n: nat, log: nat, shift: nat)
    requires Shr(n, log) < Pow2(2 * shift)
    ensures var x := Shr(Shr(n, log), shift);
      x == Shr(n, log + shift) < Pow2(shift) && (x == 0 ==> Shr(n, log) < Pow2(shift))
  {
    hide Shr;
    ShrSum(n, log, shift);
    ShrBound(Shr(n, log), shift, shift);
    ShrBound(Shr(n, log), shift, 0);
  }

  lemma ShrNone(n: nat)
    ensures Shr(n, 0) == n
  {
  }

  // ---- the portable scans ----

  method Log2Floor(n: uint32) returns (log: int)
    ensures n == 0 ==> log == -1
    ensures n > 0 ==> 0 <= log < 32 && Pow2(log) <= n < Pow2(log + 1)
  {
    if n == 0 {
      return -1;
    }
    hide Shr, Pow2;
    Pow2Of32();
    assert Shr(n, 0) == n by { ShrNone(n); }
    log := 0;
    var value: nat := n;
    var shift := 16;
    ghost var top: nat := 32;
    while shift > 0
      invariant shift in {16, 8, 4, 2, 1, 0} && top == (if shift == 0 then 1 else 2 * shift)
      invariant 0 <= log <= 32 - top
      invariant value == Shr(n, log) && 0 < value < Pow2(top)
    {
      var x := Shr(value, shift);
      HalfScan(n, log, shift);
      if x != 0 {
        value := x;
        log := log + shift;
      }
      top := shift;
      shift := shift / 2;
    }
    ShrBound(n, log, 0);
    ShrBound(n, log, 1);
  }

  method FindLSBSetNonZero(n: uint32) returns (rc: nat)
    requires n > 0
    ensures rc == TrailingZeros(n)
  {
    Pow2Of32();
    TrailingZerosBelow(n, 32);
    rc := 31;
    var value, shift := n, 16;
    ghost var span: nat := 32;
    while shift > 0
      invariant shift in {16, 8, 4, 2, 1, 0} && span == (if shift == 0 then 1 else 2 * shift)
      invariant value > 0 && 32 - span <= TrailingZeros(value) < 32
      invariant TrailingZeros(value) + rc == TrailingZeros(n) + 31
    {
      var x := Shl(value, shift);
      ShlTrailingZeros(value, shift);
      if x != 0 {
        TrailingZerosBelow(x, 32);
        value := x;
        rc := rc - shift;
      }
      span := shift;
      shift := shift / 2;
    }
  }

  method FindLSBSetNonZero64(n: nat) returns (rc: nat)
    requires 0 < n < TWO32 * TWO32
    ensures rc == TrailingZeros(n)
  {
    Pow2Of32();
    var bottom := n % TWO32;
    if bottom == 0 {
      ShiftedTrailingZeros(n / TWO32, 32);
      assert n == n / TWO32 * TWO32;
      var high := FindLSBSetNonZero(n / TWO32);
      rc := 32 + high;
    } else {
      LowIsRemainder(n);
      LowTrailingZeros(n, 32);
      rc := FindLSBSetNonZero(bottom);
    }
  }

  /** Trailing zeros of a product with a power of two. */
  lemma {:induction false} ShiftedTrailingZeros(n: nat, k: nat)
    requires n > 0
    ensures n * Pow2(k) > 0 && TrailingZeros(n * Pow2(k)) == TrailingZeros(n) + k
  {
    if k > 0 {
      ShiftedTrailingZeros(n, k - 1);
      var m := n * Pow2(k - 1);
      assert n * Pow2(k) == 2 * m by { Doubled(Pow2(k - 1), n); }
      assert TrailingZeros(2 * m) == TrailingZeros(m) + 1;
    }
  }

  /** The `k` lowest bits of a word. */
  ghost function Low(n: nat, k: nat): nat {
    if k == 0 then 0 else n % 2 + 2 * Low(n / 2, k - 1)
  }

  lemma {:induction false} LowAndHigh(n: nat, k: nat)
    ensures Low(n, k) < Pow2(k) && n == Low(n, k) + Pow2(k) * Shr(n, k)
  {
    if k > 0 {
      hide Shr;
      LowAndHigh(n / 2, k - 1);
      ShrHalf(n, k - 1);
      Doubled(Pow2(k - 1), Shr(n, k));
    } else {
      assert Shr(n, 0) == n;
    }
  }

  lemma Doubled(m: nat, x: nat)
    ensures 2 * m * x == 2 * (m * x) && x * (2 * m) == 2 * (x * m)
  {
  }

  lemma {:induction false} ShrHalf(n: nat, k: nat)
    ensures Shr(n, k + 1) == Shr(n / 2, k)
  {
    if k > 0 {
      ShrHalf(n, k - 1);
    }
  }

  /** At the byte boundaries of a word, the low bits are a remainder. */
  lemma LowIsRemainder(n: nat)
    ensures Low(n, 0) == n % 1 && Low(n, 8) == n % 0x100 && Low(n, 16) == n % 0x1_0000
    ensures Low(n, 24) == n % 0x100_0000 && Low(n, 32) == n % TWO32
  {
    Pow2Of32();
    forall k | 0 <= k
      ensures Low(n, k) == n % Pow2(k)
    {
      LowAndHigh(n, k);
      QuotientUnique(n, Pow2(k), Shr(n, k), Low(n, k));
    }
  }

  lemma MulGap(m: nat, d: int)
    ensures d >= 1 ==> m * d >= m
    ensures d <= -1 ==> m * d + m <= 0
  {
  }

  lemma {:induction false} LowTrailingZeros(n: nat, k: nat)
    requires Low(n, k) > 0
    ensures n > 0 && TrailingZeros(n) == TrailingZeros(Low(n, k))
  {
    if n % 2 == 0 {
      LowTrailingZeros(n / 2, k - 1);
    }
  }

  // ---- exclusive or ----

  /** The lowest set bit of `a ^ b` splits the words: below it they agree, at it they differ. */
  lemma {:induction false} XorSplits(a: nat, b: nat, k: nat)
    requires a != b
    ensures k <= TrailingZeros(Xor(a, b)) <==> Low(a, k) == Low(b, k)
  {
    if k > 0 && a % 2 == b % 2 {
      XorSplits(a / 2, b / 2, k - 1);
    }
  }

  lemma {:induction false} XorBelow(a: nat, b: nat, k: nat)
    requires a < Pow2(k) && b < Pow2(k)
    ensures Xor(a, b) < Pow2(k)
  {
    if k > 0 {
      XorBelow(a / 2, b / 2, k - 1);
    }
  }
}
