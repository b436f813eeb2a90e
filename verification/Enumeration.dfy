/** Directory enumeration in the by-id tree: a scan over the sorted keys that may be interrupted whenever the
    caller's buffer is full. */
module Enumeration {
  import opened Arithmetic
  import opened Bytes
  import opened ById
  import opened Numbers

  // ---- the sorted map ----

  predicate IsLeast(keys: set<uint64>, k: uint64) {
    k in keys && forall j :: j in keys ==> k <= j
  }

  lemma LeastExists(keys: set<uint64>)
    requires keys != {}
    ensures exists k :: IsLeast(keys, k)
  {
    var x :| x in keys;
    if keys == {x} {
      assert IsLeast(keys, x);
    } else {
      LeastExists(keys - {x});
      var k :| IsLeast(keys - {x}, k);
      assert forall j :: j in keys ==> j == x || j in keys - {x};
      assert IsLeast(keys, if x < k then x else k);
    }
  }

  /** `lower_bound`: the first key that is not below `pos`; `None` is `end()`. */
  function LowerBound(keys: set<uint64>, pos: int): (r: Option<uint64>)
    ensures r == None ==> forall j :: j in keys ==> j < pos
    ensures r.Some? ==> r.value in keys && pos <= r.value && forall j :: j in keys && pos <= j ==> r.value <= j
  {
    var later := set k | k in keys && pos <= k;
    assert forall j :: j in keys && pos <= j ==> j in later;
    if later == {} then None
    else
      LeastExists(later);
      var k :| IsLeast(later, k);
      Some(k)
  }

  /** `upper_bound`: the first key above `pos`. */
  function UpperBound(keys: set<uint64>, pos: int): (r: Option<uint64>) {
    LowerBound(keys, pos + 1)
  }

  // ---- the children of a directory ----

  ghost predicate HasKey(keys: set<uint64>, low: int, high: int) {
    exists k :: k in keys && low <= k <= high
  }

  datatype Entry = Entry(name: string, isDirectory: bool, size: nat)

  /** The entry of child `b`. */
  ghost function EntryOf(files: map<uint64, nat>, n: nat, first: int, b: byte): Entry {
    Entry(ByteName(b), n != 7, if n == 7 && 0 <= first + b < TWO64 && first + b in files then files[first + b] else 0)
  }

  /** Child `b` exists when some key begins with its bytes. */
  ghost predicate Exists(files: map<uint64, nat>, n: nat, first: int, b: int)
    requires n < 8
  {
    HasKey(files.Keys, first + b * Width(n + 1), first + b * Width(n + 1) + Width(n + 1) - 1)
  }

  /** The listing of a directory from child `b` on: the children that exist and pass the filter, ascending. */
  ghost function Listing(files: map<uint64, nat>, n: nat, first: int, keep: string -> bool, b: nat): seq<Entry>
    requires n < 8 && b <= 0x100
    decreases 0x100 - b
  {
    if b == 0x100 then []
    else
      (if Exists(files, n, first, b) && keep(ByteName(b)) then [EntryOf(files, n, first, b)] else [])
      + Listing(files, n, first, keep, b + 1)
  }

  /** Children without keys are not listed. */
  lemma {:induction false} SkipEmpty(files: map<uint64, nat>, n: nat, first: int, keep: string -> bool, b: nat, c: nat)
    requires n < 8 && b <= c <= 0x100 && forall d :: b <= d < c ==> !Exists(files, n, first, d)
    ensures Listing(files, n, first, keep, b) == Listing(files, n, first, keep, c)
    decreases c - b
  {
    hide Exists, EntryOf, ByteName;
    if b < c {
      assert !Exists(files, n, first, b);
      assert Listing(files, n, first, keep, b) == Listing(files, n, first, keep, b + 1);
      hide Listing;
      SkipEmpty(files, n, first, keep, b + 1, c);
    }
  }

  // ---- one step of the scan ----

  /** `(pos + unit) & ~(unit - 1)` in 64 bits, for a power of two. */
  function NextMultiple(pos: uint64, unit: int): (next: int)
    requires unit >= 1
  {
    (pos + unit) % TWO64 / unit * unit
  }

  /** `static_cast<uint8_t>(pos >> shift)`, where `unit` is two to the power `shift`. */
  function ByteFrom(pos: uint64, unit: int): (b: byte)
    requires unit >= 1
  {
    pos / unit % 0x100
  }

  lemma LowestByte(pos: uint64)
    ensures ByteFrom(pos, 1) == pos % 0x100 && NextMultiple(pos, 1) == (pos + 1) % TWO64
  {
  }

  /** `byIdSplit`: the byte that names the child a key lies in, and the first key of the next child; false
      where the program throws because the width is none of the eight. */
  method ByIdSplit(pos: uint64, first: uint64, last: uint64) returns (ok: bool, b: byte, next: int)
    requires first <= last
    ensures ok <==> exists n :: 0 <= n < 8 && last - first == Width(n) - 1
    ensures forall n :: 0 <= n < 8 && last - first == Width(n) - 1 ==>
      b == ByteFrom(pos, Width(n + 1)) && next == NextMultiple(pos, Width(n + 1))
  {
    hide Width, Power256, ByteFrom, NextMultiple;
    Widths();
    LowestByte(pos);
    var mask := last - first;
    ok := true;
    if mask == 0xFFFF_FFFF_FFFF_FFFF {
      b, next := ByteFrom(pos, 0x100_0000_0000_0000), NextMultiple(pos, 0x100_0000_0000_0000);
    } else if mask == 0xFF_FFFF_FFFF_FFFF {
      b, next := ByteFrom(pos, 0x1_0000_0000_0000), NextMultiple(pos, 0x1_0000_0000_0000);
    } else if mask == 0xFFFF_FFFF_FFFF {
      b, next := ByteFrom(pos, 0x100_0000_0000), NextMultiple(pos, 0x100_0000_0000);
    } else if mask == 0xFF_FFFF_FFFF {
      b, next := ByteFrom(pos, 0x1_0000_0000), NextMultiple(pos, 0x1_0000_0000);
    } else if mask == 0xFFFF_FFFF {
      b, next := ByteFrom(pos, 0x100_0000), NextMultiple(pos, 0x100_0000);
    } else if mask == 0xFF_FFFF {
      b, next := ByteFrom(pos, 0x1_0000), NextMultiple(pos, 0x1_0000);
    } else if mask == 0xFFFF {
      b, next := ByteFrom(pos, 0x100), NextMultiple(pos, 0x100);
    } else if mask == 0xFF {
      b, next := pos % 0x100, (pos + 1) % TWO64;
    } else {
      ok, b, next := false, 0, 0;
    }
    forall n | 0 <= n < 8 && mask == Width(n) - 1
      ensures ok && b == ByteFrom(pos, Width(n + 1)) && next == NextMultiple(pos, Width(n + 1))
    {
      WidthOf(n);
      WidthOfNext(n);
    }
  }

  /** The eight widths are all different. */
  lemma WidthOf(n: nat)
    requires n < 8
    ensures Width(n) == (
      if n == 0 then TWO64 else if n == 1 then 0x100_0000_0000_0000 else if n == 2 then 0x1_0000_0000_0000
      else if n == 3 then 0x100_0000_0000 else if n == 4 then 0x1_0000_0000 else if n == 5 then 0x100_0000
      else if n == 6 then 0x1_0000 else 0x100)
  {
    Widths();
  }

  lemma WidthOfNext(n: nat)
    requires n < 8
    ensures Width(n + 1) == if n == 7 then 1 else Width(n) / 0x100
  {
    Widths();
    if n < 7 {
      WidthOf(n);
      WidthOf(n + 1);
    }
  }

  lemma {:induction false} WidthDivides(n: nat)
    requires n <= 8
    ensures Width(n) * Power256(n) == TWO64
  {
    Widths();
    PowerSum(8 - n, n);
  }

  lemma OneMore(w: int, k: int)
    ensures w * (k + 1) == w * k + w && k * w == w * k
  {
  }

  lemma QuotientBounds(x: int, w: int, low: int, high: int)
    requires w >= 1 && w * low <= x < w * high
    ensures low <= x / w < high && x == w * (x / w) + x % w && 0 <= x % w < w
  {
    var k := x / w;
    OneMore(w, k);
    if k < low {
      ProductMonotone(w, k + 1, low);
    }
    if k >= high {
      ProductMonotone(w, high, k);
    }
  }

  lemma NextInside(w: int, k: int, r: int)
    requires w >= 1 && 0 <= r < w && 0 <= w * k && w * (k + 1) + r < TWO64
    ensures NextMultiple(w * k + r, w) == w * (k + 1)
  {
    OneMore(w, k);
    OneMore(w, k + 1);
    QuotientUnique(w * k + r + w, w, k + 1, r);
  }

  lemma NextWraps(w: int, k: int, r: int)
    requires 1 <= w <= TWO64 && 0 <= r < w && 0 <= w * k && w * (k + 1) == TWO64
    ensures NextMultiple(w * k + r, w) == 0
  {
    OneMore(w, k);
    QuotientUnique(TWO64 + r, TWO64, 1, r);
    QuotientUnique(r, w, 0, r);
  }

  /** Moving on from a key in the block `k` of width `w` leads to the next block, or past the last to 0. */
  lemma NextBlock(w: int, m: int, k: int, r: int)
    requires w >= 1 && w * m == TWO64 && 0 <= k < m && 0 <= r < w
    ensures 0 <= w * k + r < TWO64
    ensures NextMultiple(w * k + r, w) == w * (k + 1) % TWO64
    ensures ByteFrom(w * k + r, w) == k % 0x100
    ensures 0 <= w * (k + 1) <= TWO64 && (w * (k + 1) == TWO64 <==> k + 1 == m)
  {
    hide NextMultiple;
    OneMore(w, k);
    OneMore(w, k + 1);
    ProductMonotone(w, 0, k);
    ProductMonotone(w, k + 1, m);
    QuotientUnique(w * k + r, w, k, r);
    if k + 1 < m {
      ProductMonotone(w, k + 2, m);
      NextInside(w, k, r);
    } else {
      ProductMonotone(w, 1, m);
      OneMore(w, 0);
      NextWraps(w, k, r);
    }
  }

  /** The next position is above the key, or 0. */
  lemma NextAbove(key: uint64, n: nat)
    requires n < 8
    ensures var next := NextMultiple(key, Width(n + 1)); next == 0 || key < next < TWO64
  {
    hide NextMultiple, ByteFrom, Width, Power256;
    var w, m := Width(n + 1), Power256(n + 1);
    WidthDivides(n + 1);
    QuotientBounds(key, w, 0, m);
    OneMore(w, key / w);
    NextBlock(w, m, key / w, key % w);
  }

  /** A directory is 256 blocks of the width of its children. */
  lemma Blocks(n: nat, first: int, last: int) returns (k: int)
    requires n < 8 && IsInterval(n, first, last)
    ensures first == Width(n + 1) * k && k % 0x100 == 0 && 0 <= k && k + 0x100 <= Power256(n + 1)
    ensures last + 1 == Width(n + 1) * (k + 0x100)
  {
    WidthStep(n);
    WidthDivides(n + 1);
    hide Width, Power256;
    k := BlockOf(Width(n + 1), first);
    BlockRange(Width(n + 1), Power256(n + 1), k);
  }

  lemma BlockOf(w: int, first: int) returns (k: int)
    requires w >= 1 && first % (0x100 * w) == 0
    ensures first == w * k && k % 0x100 == 0 && w * (k + 0x100) == first + 0x100 * w
  {
    var q := first / (0x100 * w);
    assert first == 0x100 * w * q + first % (0x100 * w);
    k := 0x100 * q;
    Regroup(w, q);
  }

  lemma Regroup(w: int, q: int)
    ensures 0x100 * w * q == w * (0x100 * q) && w * (0x100 * q + 0x100) == w * (0x100 * q) + 0x100 * w
  {
  }

  lemma BlockRange(w: int, m: int, k: int)
    requires w >= 1 && 0 <= w * k && w * (k + 0x100) <= w * m
    ensures 0 <= k && k + 0x100 <= m
  {
    OneMore(w, m);
    if k + 0x100 > m {
      ProductMonotone(w, m + 1, k + 0x100);
    }
    if k < 0 {
      ProductMonotone(w, k, -1);
    }
  }

  lemma ChildBlock(w: int, k: int, b: int)
    ensures w * k + b * w == w * (k + b)
  {
  }

  /** The child in which a key of the directory lies. */
  lemma {:induction false} ChildOfKey(n: nat, first: int, last: int, b: nat, key: uint64) returns (k0: int, c: int)
    requires n < 8 && IsInterval(n, first, last) && first + b * Width(n + 1) <= key <= last
    ensures first == Width(n + 1) * k0 && c == ByteFrom(key, Width(n + 1)) && b <= c < 0x100
    ensures Width(n + 1) * (k0 + c) == first + c * Width(n + 1) <= key < first + c * Width(n + 1) + Width(n + 1)
    ensures NextMultiple(key, Width(n + 1)) == (first + (c + 1) * Width(n + 1)) % TWO64
  {
    hide NextMultiple, Width, Power256;
    var w := Width(n + 1);
    k0 := Blocks(n, first, last);
    ChildBlock(w, k0, b);
    QuotientBounds(key, w, k0 + b, k0 + 0x100);
    WidthDivides(n + 1);
    NextBlock(w, Power256(n + 1), key / w, key % w);
    c := key / w - k0;
    SmallRemainder(k0, c);
    ChildBlock(w, k0, c);
    ChildBlock(w, k0, c + 1);
    OneMore(w, key / w);
  }

  /** What `lower_bound` finds from the start of child `b` on: a key of the first child with keys. */
  lemma {:induction false} FoundChild(files: map<uint64, nat>, n: nat, first: int, last: int, b: nat, key: uint64)
    requires n < 8 && IsInterval(n, first, last) && b < 0x100 && key <= last
    requires LowerBound(files.Keys, first + b * Width(n + 1)) == Some(key)
    ensures var c := ByteFrom(key, Width(n + 1));
      && b <= c && Exists(files, n, first, c) && (forall d :: b <= d < c ==> !Exists(files, n, first, d))
      && NextMultiple(key, Width(n + 1)) == (first + (c + 1) * Width(n + 1)) % TWO64
      && (n == 7 ==> key == first + c)
  {
    hide NextMultiple, ByteFrom, Width, Power256, LowerBound, Exists, IsInterval;
    var k0, c := ChildOfKey(n, first, last, b, key);
    KeyExists(files, n, first, c, key);
    NoneBetween(files, n, first, k0, b, c, key);
    if n == 7 {
      LeafKey(first, c, key);
    }
  }

  lemma LeafKey(first: int, c: int, key: int)
    requires first + c * Width(8) <= key < first + c * Width(8) + Width(8)
    ensures key == first + c
  {
    Widths();
  }

  lemma KeyExists(files: map<uint64, nat>, n: nat, first: int, c: int, key: uint64)
    requires n < 8 && key in files
    requires first + c * Width(n + 1) <= key < first + c * Width(n + 1) + Width(n + 1)
    ensures Exists(files, n, first, c)
  {
    hide Width;
  }

  lemma {:induction false} NoneBetween(files: map<uint64, nat>, n: nat, first: int, k: int, b: nat, c: int, key: uint64)
    requires n < 8 && first == Width(n + 1) * k && c < 0x100
    requires LowerBound(files.Keys, first + b * Width(n + 1)) == Some(key) && Width(n + 1) * (k + c) <= key
    ensures forall d :: b <= d < c ==> !Exists(files, n, first, d)
  {
    hide Width;
    var w := Width(n + 1);
    ChildBlock(w, k, b);
    forall d: int | b <= d < c
      ensures !Exists(files, n, first, d)
    {
      ChildBlock(w, k, d);
      OneMore(w, k + d);
      ProductMonotone(w, k + d + 1, k + c);
      ProductMonotone(w, k + b, k + d);
    }
  }

  lemma SmallRemainder(k0: int, c: int)
    requires k0 % 0x100 == 0 && 0 <= c < 0x100
    ensures (k0 + c) % 0x100 == c
  {
  }

  /** When `lower_bound` finds nothing in the directory, no child from `b` on has keys. */
  lemma {:induction false} NothingFound(files: map<uint64, nat>, n: nat, first: int, last: int, b: nat)
    requires n < 8 && IsInterval(n, first, last) && b <= 0x100
    requires forall k :: k in files && first + b * Width(n + 1) <= k ==> k > last
    ensures forall d :: b <= d < 0x100 ==> !Exists(files, n, first, d)
  {
    var w := Width(n + 1);
    WidthStep(n);
    forall d: int | b <= d < 0x100
      ensures !Exists(files, n, first, d)
    {
      ProductMonotone(w, d + 1, 0x100);
      ProductMonotone(w, b, d);
      assert d * w == w * d && b * w == w * b && w * (d + 1) == d * w + w;
    }
  }
}
