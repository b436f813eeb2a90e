/** The varint32 of the stream preamble (section 1 of the format description): the encoder, the two
    parsers the program has, and their agreement. */
module Varint {
  import opened Bytes
  import opened Memory

  /** The weight of a seven-bit group. */
  function Weight(group: nat): (w: nat)
    requires group < 5
    ensures w > 0
  {
    if group == 0 then 1 else if group == 1 then 0x80 else if group == 2 then 0x4000
    else if group == 3 then 0x20_0000 else 0x1000_0000
  }

  /** Parses from group `group` on, with `acc` already read: the value and the position behind it.  At
      most five groups, and nothing in the fifth that does not fit 32 bits. */
  ghost function Parse(s: seq<byte>, p: nat, limit: nat, group: nat, acc: nat): (r: Option<(nat, nat)>)
    requires group <= 5 && limit <= |s|
    ensures r.Some? ==> p < r.value.1 <= limit && r.value.1 + group <= p + 5
    decreases 5 - group
  {
    if group == 5 || p >= limit then None
    else
      var val := s[p] % 128;
      if group == 4 && val >= 16 then None
      else
        var sum := acc + Weight(group) * val;
        if s[p] < 128 then Some((sum, p + 1)) else Parse(s, p + 1, limit, group + 1, sum)
  }

  /** The groups of `v`. */
  function Groups(v: nat): (s: seq<byte>)
    ensures s != []
  {
    if v < 128 then [v] else [v % 128 + 128] + Groups(v / 128)
  }

  /** Bytes whose groups start at `group` fit a 32-bit value below this. */
  ghost function Limit(group: nat): nat
    requires group < 5
  {
    TWO32 / Weight(group)
  }

  /** What is encoded is parsed back, wherever it stands. */
  lemma {:induction false} ParseGroups(v: nat, s: seq<byte>, p: nat, limit: nat, group: nat, acc: nat)
    requires group < 5 && v < Limit(group)
    requires p + |Groups(v)| <= limit <= |s| && s[p..p + |Groups(v)|] == Groups(v)
    ensures Parse(s, p, limit, group, acc) == Some((acc + Weight(group) * v, p + |Groups(v)|))
    decreases v
  {
    hide Weight, Limit, Parse, Groups;
    var g := Groups(v);
    GroupsStep(v, v / 128);
    assert s[p] == g[0];
    LimitOf(group);
    ParseStep(s, p, limit, group, acc);
    if v >= 128 {
      assert s[p + 1..p + |g|] == g[1..] == Groups(v / 128);
      ParseGroups(v / 128, s, p + 1, limit, group + 1, acc + Weight(group) * (v % 128));
      SplitWeight(Weight(group), v);
      assert Weight(group + 1) * (v / 128) == 128 * Weight(group) * (v / 128);
    }
  }

  lemma LimitOf(group: nat)
    requires group < 5
    ensures group < 4 ==> Limit(group) == 128 * Limit(group + 1) && Weight(group + 1) == 128 * Weight(group)
    ensures group == 4 ==> Limit(group) == 16
  {
  }

  lemma SplitWeight(w: nat, v: nat)
    ensures w * v == w * (v % 128) + 128 * w * (v / 128)
  {
    assert v == v % 128 + 128 * (v / 128);
    assert w * (128 * (v / 128)) == 128 * w * (v / 128);
  }

  lemma ParseStep(s: seq<byte>, p: nat, limit: nat, group: nat, acc: nat)
    requires group < 5 && limit <= |s|
    ensures p >= limit ==> Parse(s, p, limit, group, acc) == None
    ensures p < limit && (s[p] % 128 < 16 || group < 4) ==>
      Parse(s, p, limit, group, acc) ==
        (if s[p] < 128 then Some((acc + Weight(group) * (s[p] % 128), p + 1))
         else Parse(s, p + 1, limit, group + 1, acc + Weight(group) * (s[p] % 128)))
    ensures p < limit && group == 4 && s[p] >= 16 ==> Parse(s, p, limit, group, acc) == None
  {
  }

  /** `Varint::Encode32` over an output array: five fixed layouts, chosen by magnitude. */
  method Encode32(out: array<byte>, at: nat, v: uint32) returns (end: nat)
    requires at + |Groups(v)| <= out.Length
    modifies out
    ensures end == at + |Groups(v)| <= at + 5 && out[at..end] == Groups(v)
    ensures OnlyWrites(out, at, end)
  {
    hide Groups;
    GroupsOf(v);
    var bytes: seq<byte>;
    if v < 0x80 {
      bytes := [v];
    } else if v < 0x4000 {
      bytes := [v % 128 + 128, v / 0x80];
    } else if v < 0x20_0000 {
      bytes := [v % 128 + 128, v / 0x80 % 128 + 128, v / 0x4000];
    } else if v < 0x1000_0000 {
      bytes := [v % 128 + 128, v / 0x80 % 128 + 128, v / 0x4000 % 128 + 128, v / 0x20_0000];
    } else {
      bytes := [v % 128 + 128, v / 0x80 % 128 + 128, v / 0x4000 % 128 + 128,
                v / 0x20_0000 % 128 + 128, v / 0x1000_0000];
    }
    Memcpy(out, at, bytes);
    end := at + |bytes|;
  }

  lemma GroupsOf(v: uint32)
    ensures v < 0x80 ==> Groups(v) == [v]
    ensures 0x80 <= v < 0x4000 ==> Groups(v) == [v % 128 + 128, v / 0x80]
    ensures 0x4000 <= v < 0x20_0000 ==> Groups(v) == [v % 128 + 128, v / 0x80 % 128 + 128, v / 0x4000]
    ensures 0x20_0000 <= v < 0x1000_0000 ==>
      Groups(v) == [v % 128 + 128, v / 0x80 % 128 + 128, v / 0x4000 % 128 + 128, v / 0x20_0000]
    ensures 0x1000_0000 <= v ==>
      Groups(v) == [v % 128 + 128, v / 0x80 % 128 + 128, v / 0x4000 % 128 + 128,
                    v / 0x20_0000 % 128 + 128, v / 0x1000_0000]
  {
    hide Groups;
    var a, b, c, d := v / 0x80, v / 0x4000, v / 0x20_0000, v / 0x1000_0000;
    DivChain(v);
    GroupsStep(v, a);
    GroupsStep(a, b);
    GroupsStep(b, c);
    GroupsStep(c, d);
    GroupsStep(d, 0);
    GroupsJoin(v, a, b, c, d);
  }

  lemma GroupsShort(v: uint32)
    ensures |Groups(v)| <= 5
  {
    hide Groups;
    GroupsOf(v);
  }

  lemma DivChain(v: uint32)
    ensures v / 0x80 / 0x80 == v / 0x4000 && v / 0x4000 / 0x80 == v / 0x20_0000
    ensures v / 0x20_0000 / 0x80 == v / 0x1000_0000 && v / 0x1000_0000 / 0x80 == 0
  {
  }

  lemma GroupsJoin(v: nat, a: nat, b: nat, c: nat, d: nat)
    requires a == v / 128 && b == a / 128 && c == b / 128 && d == c / 128 && d < 128
    ensures a < 128 <= v ==> Groups(v) == [v % 128 + 128, a]
    ensures b < 128 <= a ==> Groups(v) == [v % 128 + 128, a % 128 + 128, b]
    ensures c < 128 <= b ==> Groups(v) == [v % 128 + 128, a % 128 + 128, b % 128 + 128, c]
    ensures 128 <= c ==> Groups(v) == [v % 128 + 128, a % 128 + 128, b % 128 + 128, c % 128 + 128, d]
  {
    assert d >= 128 ==> c >= 128;
    assert c >= 128 ==> b >= 128;
    assert b >= 128 ==> a >= 128;
    assert a >= 128 ==> v >= 128;
    if c >= 128 {
      assert Groups(c) == [c % 128 + 128, d];
    }
    if b >= 128 {
      assert Groups(b) == [b % 128 + 128] + Groups(c);
    }
    if a >= 128 {
      assert Groups(a) == [a % 128 + 128] + Groups(b);
    }
  }

  lemma GroupsStep(v: nat, next: nat)
    requires next == v / 128
    ensures Groups(v) == if v < 128 then [v] else [v % 128 + 128] + Groups(next)
  {
  }

  /** `Varint::Parse32WithLimit`: five unrolled steps, the last of which only tests `b < 16`. */
  method Parse32WithLimit(s: seq<byte>, at: nat, limit: nat) returns (r: Option<(nat, nat)>)
    requires at <= limit <= |s|
    ensures r == Parse(s, at, limit, 0, 0)
  {
    hide Parse;
    var ptr := at;
    ParseStep(s, ptr, limit, 0, 0);
    if ptr >= limit { return None; }
    var b: int := s[ptr]; ptr := ptr + 1; var result := b % 128;
    if b >= 128 {
      ParseStep(s, ptr, limit, 1, result);
      if ptr >= limit { return None; }
      b := s[ptr]; ptr := ptr + 1; result := result + 0x80 * (b % 128);
      if b >= 128 {
        ParseStep(s, ptr, limit, 2, result);
        if ptr >= limit { return None; }
        b := s[ptr]; ptr := ptr + 1; result := result + 0x4000 * (b % 128);
        if b >= 128 {
          ParseStep(s, ptr, limit, 3, result);
          if ptr >= limit { return None; }
          b := s[ptr]; ptr := ptr + 1; result := result + 0x20_0000 * (b % 128);
          if b >= 128 {
            ParseStep(s, ptr, limit, 4, result);
            if ptr >= limit { return None; }
            b := s[ptr]; ptr := ptr + 1; result := result + 0x1000_0000 * (b % 128);
            if b >= 16 { return None; }
          }
        }
      }
    }
    r := Some((result, ptr));
  }

  lemma ParseEnd(s: seq<byte>, p: nat, limit: nat, group: nat, acc: nat)
    requires group == 5 && limit <= |s|
    ensures Parse(s, p, limit, group, acc) == None
  {
  }

  /** Shifting a group into a 32-bit word and back loses bits only in the fifth group, and there
      exactly when the group is 16 or more. */
  lemma ShiftLoss(val: nat, group: nat)
    requires val < 128 && group < 5
    ensures Weight(group) * val % TWO32 / Weight(group) == val <==> group < 4 || val < 16
  {
  }

  /** A parsed value fits 32 bits. */
  lemma {:induction false} ParsedFits(s: seq<byte>, p: nat, limit: nat, group: nat, acc: nat)
    requires group < 5 && limit <= |s| && acc < Weight(group)
    ensures Parse(s, p, limit, group, acc).Some? ==> Parse(s, p, limit, group, acc).value.0 < TWO32
    decreases 5 - group
  {
    if p < limit && group < 4 {
      ParsedFits(s, p + 1, limit, group + 1, acc + Weight(group) * (s[p] % 128));
    }
  }
}
