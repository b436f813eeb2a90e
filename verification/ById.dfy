/** The by-id tree: eight levels of directories, each named by the next byte of a file's 64-bit key. */
module ById {
  import opened Arithmetic
  import opened Bytes
  import opened Numbers
  import opened Paths

  const TWO64: int := 0x1_0000_0000_0000_0000

  type uint64 = x: int | 0 <= x < TWO64

  /** How many keys lie below a directory at depth `n`, where `n` bytes are fixed. */
  ghost function Width(n: nat): (w: int)
    requires n <= 8
    ensures w >= 1
  {
    Power256(8 - n)
  }

  lemma Widths()
    ensures Width(0) == TWO64 && Width(1) == 0x100_0000_0000_0000 && Width(2) == 0x1_0000_0000_0000
    ensures Width(3) == 0x100_0000_0000 && Width(4) == 0x1_0000_0000 && Width(5) == 0x100_0000
    ensures Width(6) == 0x1_0000 && Width(7) == 0x100 && Width(8) == 1
  {
    assert Power256(4) == 0x100 * Power256(3) && Power256(3) == 0x100 * Power256(2) && Power256(2) == 0x1_0000;
    assert Power256(8) == 0x100 * Power256(7) && Power256(7) == 0x100 * Power256(6) && Power256(6) ==
      0x100 * Power256(5);
    assert Power256(5) == 0x100 * Power256(4);
  }

  /** The keys of a directory: those that begin with the same `n` bytes. */
  ghost predicate IsInterval(n: nat, first: int, last: int) {
    n <= 8 && 0 <= first && first % Width(n) == 0 && last == first + Width(n) - 1 && last < TWO64
  }

  // ---- names ----

  predicate IsHexDigit(c: char) {
    '0' <= c <= '9' || 'a' <= c <= 'f' || 'A' <= c <= 'F'
  }

  function DigitValue(c: char): (v: int)
    requires IsHexDigit(c)
    ensures 0 <= v < 16
  {
    if c <= '9' then c as int - '0' as int
    else if c <= 'F' then c as int - 'A' as int + 10
    else c as int - 'a' as int + 10
  }

  /** The names that the expression `^[0-9a-fA-F]{2}$` matches. */
  predicate IsByteName(name: string) {
    |name| == 2 && IsHexDigit(name[0]) && IsHexDigit(name[1])
  }

  function ByteOfName(name: string): (b: byte)
    requires IsByteName(name)
  {
    16 * DigitValue(name[0]) + DigitValue(name[1])
  }

  function HexDigit(v: int): (c: char)
    requires 0 <= v < 16
    ensures IsHexDigit(c) && DigitValue(c) == v && c != SEPARATOR
  {
    if v < 10 then ('0' as int + v) as char else ('a' as int + v - 10) as char
  }

  /** A byte in two lower-case digits. */
  function ByteName(b: byte): (name: string)
    ensures IsByteName(name) && ByteOfName(name) == b && SEPARATOR !in name
  {
    [HexDigit(b / 16), HexDigit(b % 16)]
  }

  /** The digits in both cases, and no other characters, spell a value. */
  lemma DigitSpells(c: char)
    ensures IsHexDigit(c) <==> c in "0123456789abcdefABCDEF"
    ensures IsHexDigit(c) ==> c == "0123456789abcdef"[DigitValue(c)] || c == "0123456789ABCDEF"[DigitValue(c)]
  {
    var digits := "0123456789abcdefABCDEF";
    if IsHexDigit(c) {
      var i := if c <= '9' then c as int - '0' as int else if c <= 'F' then c as int - 'A' as int + 16
               else c as int - 'a' as int + 10;
      assert digits[i] == c;
    }
  }

  /** Two digits, in either case, name the byte that they spell; no other name does. */
  lemma NamedByte(name: string)
    ensures IsByteName(name) <==>
      |name| == 2 && name[0] in "0123456789abcdefABCDEF" && name[1] in "0123456789abcdefABCDEF"
    ensures IsByteName(name) ==>
      var high, low := ByteOfName(name) / 16, ByteOfName(name) % 16;
      && (name[0] == "0123456789abcdef"[high] || name[0] == "0123456789ABCDEF"[high])
      && (name[1] == "0123456789abcdef"[low] || name[1] == "0123456789ABCDEF"[low])
  {
    hide IsHexDigit, DigitValue;
    if |name| == 2 {
      DigitSpells(name[0]);
      DigitSpells(name[1]);
      if IsByteName(name) {
        assert ByteOfName(name) / 16 == DigitValue(name[0]) && ByteOfName(name) % 16 == DigitValue(name[1]);
      }
    }
  }

  /** The name that is listed has the lower-case digits. */
  lemma ListedName(b: byte)
    ensures ByteName(b) == ["0123456789abcdef"[b / 16], "0123456789abcdef"[b % 16]]
  {
  }

  /** Byte `i` of a word, the least significant being byte 0. */
  function ByteAt(x: int, i: nat): (b: byte)
    requires 0 <= x
  {
    x / Power256(i) % 0x100
  }

  /** `(x & ~(0xFF << 8 * i)) | (b << 8 * i)`. */
  function WithByte(x: int, i: nat, b: byte): int
    requires 0 <= x
  {
    x + (b as int - ByteAt(x, i) as int) * Power256(i)
  }

  /** The interval that a path names; `isRootName` is the comparison of a name with `by-id`.  The depth is
      the number of byte names. */
  ghost function ParseNames(names: seq<string>, isRootName: string -> bool): Option<(nat, int, int)> {
    if |names| < 2 || |names| > 10 || names[0] != "" || !isRootName(names[1]) then None
    else ParseBytes(names[2..])
  }

  /** The interval of the keys that begin with the bytes that `names` name. */
  ghost function ParseBytes(names: seq<string>): (r: Option<(nat, int, int)>)
    requires |names| <= 8
    ensures r.Some? ==> r.value.0 == |names| && IsInterval(|names|, r.value.1, r.value.2)
  {
    if names == [] then Widths(); Some((0, 0, TWO64 - 1))
    else if !IsByteName(names[|names| - 1]) then None
    else
      match ParseBytes(names[..|names| - 1])
      case None => None
      case Some((n, first, last)) =>
        var b := ByteOfName(names[|names| - 1]);
        ChildInterval(n, first, last, b);
        Some((n + 1, first + b * Width(n + 1), first + b * Width(n + 1) + Width(n + 1) - 1))
  }

  /** The children of a directory divide its interval. */
  lemma ChildInterval(n: nat, first: int, last: int, b: byte)
    requires n < 8 && IsInterval(n, first, last)
    ensures IsInterval(n + 1, first + b * Width(n + 1), first + b * Width(n + 1) + Width(n + 1) - 1)
    ensures first <= first + b * Width(n + 1) && first + b * Width(n + 1) + Width(n + 1) - 1 <= last
  {
    WidthStep(n);
    ChildArithmetic(Width(n + 1), first, b);
  }

  lemma WidthStep(n: nat)
    requires n < 8
    ensures Width(n) == 0x100 * Width(n + 1)
  {
  }

  lemma ChildArithmetic(w: int, first: int, b: byte)
    requires w >= 1 && 0 <= first && first % (0x100 * w) == 0
    ensures (first + b * w) % w == 0 && 0 <= b * w && b * w + w <= 0x100 * w
  {
    var q := first / (0x100 * w);
    assert first == 0x100 * w * q;
    RegroupProduct(w, q, b);
    MultipleOf(w, 0x100 * q + b);
    ProductMonotone(w, b + 1, 0x100);
    ProductMonotone(w, 0, b);
  }

  lemma RegroupProduct(w: int, q: int, b: int)
    ensures 0x100 * w * q + b * w == w * (0x100 * q + b) && w * (b + 1) == b * w + w
  {
  }

  lemma MultipleOf(w: int, k: int)
    requires w >= 1
    ensures (w * k) % w == 0
  {
    assert w * k == w * k + 0;
    var p, r := w * k / w, w * k % w;
    assert w * k == w * p + r;
    assert r == w * (k - p);
    if k - p >= 1 {
      ProductMonotone(w, 1, k - p);
    } else if k - p <= -1 {
      ProductMonotone(w, k - p, -1);
    }
  }

  // ---- bytes of keys ----

  /** A key is its leading bytes, a byte, and what follows. */
  lemma ByteBetween(w: int, q: int, k: int, r: int)
    requires w >= 1 && 0 <= k < 0x100 && 0 <= r < w
    ensures (0x100 * w * q + k * w + r) / w % 0x100 == k
    ensures (0x100 * w * q + k * w + r) / w * w == 0x100 * w * q + k * w
  {
    RegroupProduct(w, q, k);
    var x := 0x100 * w * q + k * w + r;
    QuotientUnique(x, w, 0x100 * q + k, r);
    QuotientUnique(0x100 * q + k, 0x100, q, k);
  }

  /** Setting the next byte of both ends of a directory narrows it to one of its children. */
  lemma NarrowedToChild(n: nat, first: int, last: int, b: byte)
    requires n < 8 && IsInterval(n, first, last)
    ensures WithByte(first, 7 - n, b) == first + b * Width(n + 1)
    ensures WithByte(last, 7 - n, b) == first + b * Width(n + 1) + Width(n + 1) - 1
  {
    WidthStep(n);
    assert first % Width(n) == 0 && last == first + Width(n) - 1;
    NarrowedBlock(Width(n + 1), first, last, 7 - n, b);
  }

  lemma NarrowedBlock(w: int, first: int, last: int, i: nat, b: byte)
    requires 0 <= first && i < 8 && w == Power256(i) && w >= 1
    requires first % (0x100 * w) == 0 && last == first + 0x100 * w - 1
    ensures WithByte(first, i, b) == first + b * w && WithByte(last, i, b) == first + b * w + w - 1
  {
    var q := first / (0x100 * w);
    assert first == 0x100 * w * q;
    ByteBetween(w, q, 0, 0);
    ByteBetween(w, q, 0xFF, w - 1);
    assert last == 0x100 * w * q + 0xFF * w + (w - 1);
    assert (b - 0xFF) * w == b * w - 0xFF * w;
  }

  /** How far parsing has got when it has gone through the names in `done`. */
  ghost predicate Parsed(done: seq<string>, isRootName: string -> bool, first: int, last: int) {
    && |done| <= 10
    && (|done| >= 1 ==> done[0] == "")
    && (|done| >= 2 ==> isRootName(done[1]) && ParseBytes(done[2..]) == Some((|done| - 2, first, last)))
    && (|done| < 2 ==> first == 0 && last == TWO64 - 1)
  }

  /** The body of the loop of `parseByIDName`, for one name. */
  method ParseName(ghost done: seq<string>, position: int, name: string, isRootName: string -> bool, first: int,
                   last: int)
    returns (ok: bool, firstID: int, lastID: int)
    requires Parsed(done, isRootName, first, last) && position == |done| - 2
    ensures ok ==> Parsed(done + [name], isRootName, firstID, lastID)
    ensures !ok ==> forall rest :: ParseNames(done + [name] + rest, isRootName) == None
  {
    hide IsByteName, ByteOfName, WithByte, Width;
    firstID, lastID := first, last;
    if position == -2 {
      ok := name == "";
    } else if position == -1 {
      ok := isRootName(name);
      assert (done + [name])[2..] == [];
    } else if position == 8 {
      ok := false;
    } else {
      assert (done + [name])[2..] == done[2..] + [name];
      ok := IsByteName(name);
      if ok {
        var b := ByteOfName(name);
        NarrowedToChild(position, first, last, b);
        firstID := WithByte(first, 7 - position, b);
        lastID := WithByte(last, 7 - position, b);
      } else {
        forall rest
          ensures ParseNames(done + [name] + rest, isRootName) == None
        {
          NotAllBytes(done + [name] + rest, |done|);
        }
      }
    }
  }

  /** `parseByIDName`. */
  method ParseByIDName(initialPath: string, isRootName: string -> bool) returns (ok: bool, firstID: int, lastID: int)
    ensures ok <==> ParseNames(Split(Strip(initialPath)), isRootName).Some?
    ensures ok ==>
      ParseNames(Split(Strip(initialPath)), isRootName) == Some((|Split(Strip(initialPath))| - 2, firstID, lastID))
  {
    hide Split, Find, Strip, ParseBytes, ParseNames, Parsed;
    var path := Strip(initialPath);
    var namePos := 0;
    var position := -2;
    firstID, lastID := 0, TWO64 - 1;
    ghost var done: seq<string> := [];
    var more := true;
    assert path[0..] == path;
    NothingParsed(isRootName);
    while more
      invariant 0 <= namePos <= |path| && position == |done| - 2
      invariant Split(path) == if more then done + Split(path[namePos..]) else done
      invariant Parsed(done, isRootName, firstID, lastID)
      decreases more, |path| - namePos
    {
      var thisName, next := NextName(path, namePos);
      ghost var rest := if next == None then [] else Split(path[next.value..]);
      Associated(done, thisName, rest);
      ok, firstID, lastID := ParseName(done, position, thisName, isRootName, firstID, lastID);
      if !ok {
        return;
      }
      position := position + 1;
      done := done + [thisName];
      if next == None {
        more := false;
      } else {
        namePos := next.value;
      }
    }
    ok := position >= 0;
    AllParsed(done, isRootName, firstID, lastID);
  }

  /** The name at a position of the path, and where the one behind it begins. */
  method NextName(path: string, namePos: nat) returns (name: string, next: Option<nat>)
    requires namePos <= |path|
    ensures match next
      case None => Split(path[namePos..]) == [name]
      case Some(i) => namePos < i <= |path| && Split(path[namePos..]) == [name] + Split(path[i..])
  {
    hide Split, Find;
    var nextPart := Find(path, namePos);
    SplitStep(path, namePos);
    match nextPart
    case None => name, next := path[namePos..], None;
    case Some(i) => name, next := path[namePos..i], Some(i + 1);
  }

  lemma Associated(done: seq<string>, name: string, rest: seq<string>)
    ensures done + ([name] + rest) == done + [name] + rest
    ensures rest == [] ==> done + ([name] + rest) == done + [name]
  {
  }

  lemma NothingParsed(isRootName: string -> bool)
    ensures Parsed([], isRootName, 0, TWO64 - 1)
  {
  }

  lemma AllParsed(names: seq<string>, isRootName: string -> bool, first: int, last: int)
    requires Parsed(names, isRootName, first, last)
    ensures ParseNames(names, isRootName) == if |names| < 2 then None else Some((|names| - 2, first, last))
  {
  }

  lemma {:induction false} NotAllBytes(names: seq<string>, i: nat)
    requires 2 <= i < |names| && !IsByteName(names[i])
    ensures |names| <= 10 ==> ParseBytes(names[2..]) == None
  {
    if |names| <= 10 {
      BytesOrNone(names[2..], i - 2);
    }
  }

  lemma {:induction false} BytesOrNone(names: seq<string>, i: nat)
    requires i < |names| <= 8 && !IsByteName(names[i])
    ensures ParseBytes(names) == None
  {
    if i < |names| - 1 {
      BytesOrNone(names[..|names| - 1], i);
    }
  }

  // ---- from an interval back to its path ----

  lemma {:induction false} PowerSum(a: nat, b: nat)
    ensures Power256(a + b) == Power256(a) * Power256(b)
  {
    if a > 0 {
      PowerSum(a - 1, b);
      assert Power256(a) == 0x100 * Power256(a - 1);
      assert 0x100 * (Power256(a - 1) * Power256(b)) == 0x100 * Power256(a - 1) * Power256(b);
    }
  }

  lemma {:induction false} PowerMonotone(a: nat, b: nat)
    requires a <= b
    ensures Power256(a) <= Power256(b)
  {
    if a < b {
      PowerMonotone(a, b - 1);
    }
  }

  lemma HighByte(w: int, p: int, m: int)
    requires w >= 1 && 1 <= m <= w
    ensures (0x100 * w * p - m) / w % 0x100 == 0xFF
  {
    ByteBetween(w, p - 1, 0xFF, w - m);
    Distribute(0x100 * w, p, 1);
    assert 0x100 * w * (p - 1) + 0xFF * w + (w - m) == 0x100 * w * p - m;
  }

  lemma LowByte(w: int, p: int, q: int)
    requires w >= 1
    ensures (0x100 * w * p - 0x100 * w * q) / w % 0x100 == 0
  {
    ByteBetween(w, p - q, 0, 0);
    Distribute(0x100 * w, p, q);
  }

  lemma Distribute(a: int, p: int, q: int)
    ensures a * (p - q) == a * p - a * q
  {
  }

  /** The complement of a directory's width covers exactly the bytes its path fixes. */
  lemma {:induction false} MaskByte(n: nat, i: nat)
    requires n <= 8 && i < 8
    ensures TWO64 - Width(n) >= 0 && ByteAt(TWO64 - Width(n), i) == if i >= 8 - n then 0xFF else 0
  {
    Widths();
    PowerMonotone(8 - n, 8);
    MaskByteOf(8 - n, i);
  }

  lemma {:induction false} MaskByteOf(m: nat, i: nat)
    requires m <= 8 && i < 8
    ensures (Power256(8) - Power256(m)) / Power256(i) % 0x100 == if i >= m then 0xFF else 0
  {
    hide Power256;
    var w := Power256(i);
    PowerStep(i);
    PowerSum(i + 1, 7 - i);
    if i >= m {
      PowerMonotone(m, i);
      HighByte(w, Power256(7 - i), Power256(m));
    } else {
      PowerSum(i + 1, m - i - 1);
      LowByte(w, Power256(7 - i), Power256(m - i - 1));
    }
  }

  lemma PowerStep(i: nat)
    ensures Power256(i + 1) == 0x100 * Power256(i)
  {
  }

  /** The names of the first `n` bytes of a key. */
  ghost function ByteNames(key: uint64, n: nat): (names: seq<string>)
    requires n <= 8
    ensures |names| == n && forall i :: 0 <= i < n ==> IsByteName(names[i]) && SEPARATOR !in names[i]
  {
    if n == 0 then [] else ByteNames(key, n - 1) + [ByteName(ByteAt(key, 8 - n))]
  }

  /** The names on the way from the root of the volume to the directory of keys beginning like `key`. */
  ghost function NamesFor(key: uint64, n: nat): (names: seq<string>)
    requires n <= 8
    ensures names != [] && forall i :: 0 <= i < |names| ==> SEPARATOR !in names[i]
  {
    ["", "by-id"] + ByteNames(key, n)
  }

  /** `buildNameForID`. */
  method BuildNameForID(key: uint64, mask: uint64) returns (name: string)
    ensures forall n :: 0 <= n <= 8 && mask == TWO64 - Width(n) ==> name == Join(NamesFor(key, n))
  {
    hide ByteAt, ByteName, Width, Join;
    name := "\\by-id";
    ghost var names := NamesFor(key, 0);
    RootName(key);
    for k := 0 to 8
      invariant forall n :: 0 <= n <= 8 && mask == TWO64 - Width(n) ==>
        name == Join(NamesFor(key, if n < k then n else k))
    {
      ghost var before := name;
      if ByteAt(mask, 7 - k) != 0 {
        name := name + [SEPARATOR] + ByteName(ByteAt(key, 7 - k));
      }
      forall n | 0 <= n <= 8 && mask == TWO64 - Width(n)
        ensures name == Join(NamesFor(key, if n < k + 1 then n else k + 1))
      {
        MaskByte(n, 7 - k);
        if n > k {
          NamesForOneMore(key, k);
        }
      }
    }
  }

  lemma RootName(key: uint64)
    ensures "\\by-id" == Join(NamesFor(key, 0))
  {
    assert NamesFor(key, 0)[1..] == ["by-id"];
  }

  lemma {:induction false} NamesForOneMore(key: uint64, n: nat)
    requires n < 8
    ensures NamesFor(key, n + 1) == NamesFor(key, n) + [ByteName(ByteAt(key, 7 - n))]
    ensures Join(NamesFor(key, n + 1)) == Join(NamesFor(key, n)) + [SEPARATOR] + ByteName(ByteAt(key, 7 - n))
  {
    JoinOneMore(NamesFor(key, n), ByteName(ByteAt(key, 7 - n)));
  }

  /** The first key that begins with the same `n` bytes. */
  ghost function Floor(key: uint64, n: nat): (f: int)
    requires n <= 8
    ensures 0 <= f <= key
  {
    FloorBounds(key, Width(n));
    key / Width(n) * Width(n)
  }

  lemma FloorBounds(x: int, w: int)
    requires 0 <= x && w >= 1
    ensures 0 <= x / w * w <= x < x / w * w + w && x / w * w % w == 0
  {
    assert x == w * (x / w) + x % w;
    ProductMonotone(w, 0, x / w);
    MultipleOf(w, x / w);
  }

  lemma {:induction false} FloorStep(key: uint64, n: nat)
    requires n < 8
    ensures Floor(key, n + 1) == Floor(key, n) + ByteAt(key, 7 - n) * Width(n + 1)
  {
    WidthStep(n);
    FloorArithmetic(key, Width(n + 1));
  }

  lemma QuotientBelow(x: int, w: int)
    requires w >= 1 && 0 <= x < 0x100 * w
    ensures 0 <= x / w < 0x100 && 0 <= x % w < w && x == w * (x / w) + x % w
  {
    if x / w >= 0x100 {
      ProductMonotone(w, 0x100, x / w);
    }
  }

  lemma FloorArithmetic(x: int, w: int)
    requires w >= 1 && 0 <= x
    ensures x / w * w == x / (0x100 * w) * (0x100 * w) + (x / w % 0x100) * w
  {
    var q, rest := x / (0x100 * w), x % (0x100 * w);
    QuotientBelow(rest, w);
    var k, r := rest / w, rest % w;
    assert x == 0x100 * w * q + k * w + r;
    ByteBetween(w, q, k, r);
  }

  lemma {:induction false} FloorOfInterval(n: nat, first: int, last: int)
    requires IsInterval(n, first, last)
    ensures Floor(first, n) == first
  {
    var w := Width(n);
    assert first == w * (first / w) + first % w;
  }

  lemma {:induction false} FloorIsInterval(key: uint64, n: nat)
    requires n <= 8
    ensures IsInterval(n, Floor(key, n), Floor(key, n) + Width(n) - 1) && key <= Floor(key, n) + Width(n) - 1
    decreases n
  {
    FloorBounds(key, Width(n));
    if n == 0 {
      Widths();
      assert key / TWO64 == 0;
    } else {
      FloorIsInterval(key, n - 1);
      FloorStep(key, n - 1);
      ChildInterval(n - 1, Floor(key, n - 1), Floor(key, n - 1) + Width(n - 1) - 1, ByteAt(key, 8 - n));
    }
  }

  lemma {:induction false} ParseOneMore(names: seq<string>, name: string)
    requires |names| < 8 && IsByteName(name) && ParseBytes(names).Some?
    ensures var (n, first, last) := ParseBytes(names).value;
      var low := first + ByteOfName(name) * Width(n + 1);
      n == |names| && ParseBytes(names + [name]) == Some((n + 1, low, low + Width(n + 1) - 1))
  {
    hide Width, IsByteName, ByteOfName, IsInterval;
    var all := names + [name];
    assert all[..|all| - 1] == names && all[|all| - 1] == name;
  }

  lemma ParseNone()
    ensures ParseBytes([]) == Some((0, 0, TWO64 - 1))
  {
  }

  lemma {:induction false} ParseByteNames(key: uint64, n: nat)
    requires n <= 8
    ensures ParseBytes(ByteNames(key, n)) == Some((n, Floor(key, n), Floor(key, n) + Width(n) - 1))
  {
    hide ByteAt, Width, ByteName, IsByteName, ByteOfName, Floor, ParseBytes;
    if n == 0 {
      Widths();
      FloorOfRoot(key);
      ParseNone();
    } else {
      ParseByteNames(key, n - 1);
      FloorStep(key, n - 1);
      ParseOneMore(ByteNames(key, n - 1), ByteName(ByteAt(key, 8 - n)));
    }
  }

  lemma FloorOfRoot(key: uint64)
    ensures Floor(key, 0) == 0
  {
    Widths();
  }

  lemma StripJoin(names: seq<string>)
    requires names != [] && names[|names| - 1] != "" && forall i :: 0 <= i < |names| ==> SEPARATOR !in names[i]
    ensures Strip(Join(names)) == Join(names)
    decreases |names|
  {
    if |names| == 1 {
      assert names[0][|names[0]| - 1] in names[0];
    } else {
      var rest := names[1..];
      forall i | 0 <= i < |rest|
        ensures SEPARATOR !in rest[i]
      {
        assert rest[i] == names[i + 1];
      }
      StripJoin(rest);
      JoinEnd(rest);
    }
  }

  lemma {:induction false} JoinEnd(names: seq<string>)
    requires names != [] && names[|names| - 1] != ""
    ensures Join(names) != ""
    decreases |names|
  {
    if |names| > 1 {
      JoinEnd(names[1..]);
    }
  }

  /** A directory's path leads back to its interval, and so does the path of any key in it. */
  lemma {:induction false} PathRoundTrip(key: uint64, n: nat, isRootName: string -> bool)
    requires n <= 8 && isRootName("by-id")
    ensures var path := Join(NamesFor(key, n));
      ParseNames(Split(Strip(path)), isRootName) == Some((n, Floor(key, n), Floor(key, n) + Width(n) - 1))
  {
    var names := NamesFor(key, n);
    assert names[|names| - 1] != "" by {
      if n > 0 {
        assert names[|names| - 1] == ByteNames(key, n)[n - 1];
      }
    }
    StripJoin(names);
    SplitJoin(names);
    ParseByteNames(key, n);
    assert names[2..] == ByteNames(key, n);
  }

  /** `parseByIDName(buildNameForID(first, ~(last - first)))` is the interval itself. */
  method NameRoundTrip(n: nat, first: uint64, last: uint64, isRootName: string -> bool) returns (ok: bool,
                       firstID: int, lastID: int)
    requires IsInterval(n, first, last) && isRootName("by-id")
    ensures ok && firstID == first && lastID == last
  {
    MaskByte(n, 0);
    var name := BuildNameForID(first, TWO64 - 1 - (last - first));
    ok, firstID, lastID := ParseByIDName(name, isRootName);
    assert name == Join(NamesFor(first, n));
    PathRoundTrip(first, n, isRootName);
    FloorOfInterval(n, first, last);
  }
}
