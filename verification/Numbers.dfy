/** Numbers of any width in memory, and their two byte orders. */
module Numbers {
  import opened Arithmetic
  import opened Bytes

  function Power256(w: nat): (v: int)
    ensures v >= 1
  {
    if w == 0 then 1 else 0x100 * Power256(w - 1)
  }

  /** The bytes of a `w`-byte number on a little-endian host; higher digits are cut off. */
  function DigitsOf(n: nat, w: nat): (s: seq<byte>)
    ensures |s| == w
  {
    if w == 0 then [] else [n % 0x100] + DigitsOf(n / 0x100, w - 1)
  }

  function Number(s: seq<byte>): nat {
    if s == [] then 0 else (s[0] as int) + 0x100 * Number(s[1..])
  }

  lemma {:induction false} NumberBounded(s: seq<byte>)
    ensures Number(s) < Power256(|s|)
  {
    if s != [] {
      NumberBounded(s[1..]);
    }
  }

  /** The digits of a number give back what fits. */
  lemma {:induction false} NumberOfDigits(n: nat, w: nat)
    ensures Number(DigitsOf(n, w)) == n % Power256(w)
  {
    if w > 0 {
      NumberOfDigits(n / 0x100, w - 1);
      assert DigitsOf(n, w)[1..] == DigitsOf(n / 0x100, w - 1);
      SplitModulus(n, Power256(w - 1));
    }
  }

  lemma SplitModulus(n: nat, m: nat)
    requires m >= 1
    ensures n % (0x100 * m) == n % 0x100 + 0x100 * (n / 0x100 % m)
  {
    var q, r := n / 0x100 / m, n / 0x100 % m;
    assert n / 0x100 == m * q + r;
    var low := n % 0x100 + 0x100 * r;
    assert n == 0x100 * m * q + low;
    assert 0 <= low < 0x100 * m;
    QuotientUnique(n, 0x100 * m, q, low);
  }

  function Reverse(s: seq<byte>): (r: seq<byte>)
    ensures |r| == |s| && forall i :: 0 <= i < |s| ==> r[i] == s[|s| - 1 - i]
  {
    if s == [] then [] else Reverse(s[1..]) + [s[0]]
  }

  /** The bytes in the other order if `reversed`. */
  function Order(s: seq<byte>, reversed: bool): (r: seq<byte>)
    ensures |r| == |s|
  {
    if reversed then Reverse(s) else s
  }

  lemma OrderTwice(s: seq<byte>, reversed: bool)
    ensures Order(Order(s, reversed), reversed) == s
  {
  }

  lemma OrderOne(s: seq<byte>, reversed: bool)
    requires |s| == 1
    ensures Order(s, reversed) == s
  {
  }

  /** The value of the bytes of a signed (two's complement) or unsigned number. */
  function Value(s: seq<byte>, signed: bool): int {
    var n := Number(s);
    if signed && 2 * n >= Power256(|s|) then n - Power256(|s|) else n
  }

  ghost predicate InRange(n: int, w: nat, signed: bool) {
    if signed then -Power256(w) <= 2 * n < Power256(w) else 0 <= n < Power256(w)
  }

  /** The bytes of a number in range. */
  function Representation(n: int, w: nat): (s: seq<byte>)
    requires -Power256(w) <= n
    ensures |s| == w
  {
    DigitsOf(if n < 0 then n + Power256(w) else n, w)
  }

  lemma {:induction false} ValueOfRepresentation(n: int, w: nat, signed: bool)
    requires InRange(n, w, signed)
    ensures -Power256(w) <= n && Value(Representation(n, w), signed) == n
  {
    var k: nat := if n < 0 then n + Power256(w) else n;
    assert k < Power256(w);
    NumberOfDigits(k, w);
    QuotientUnique(k, Power256(w), 0, k);
  }

  lemma {:induction false} ValueInRange(s: seq<byte>, signed: bool)
    ensures InRange(Value(s, signed), |s|, signed)
  {
    NumberBounded(s);
  }
}
