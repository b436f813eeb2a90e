/** The enumeration callbacks of a by-id directory, and what a run of calls lists. */
module DirectoryScan {
  import opened Arithmetic
  import opened Bytes
  import opened ById
  import opened Enumeration
  import opened Numbers

  /** Which names a scan lists: all, or those that match its pattern. */
  function Keeps(pattern: Option<string>, nameMatches: (string, string) -> bool): string -> bool {
    name => pattern == None || nameMatches(name, pattern.value)
  }

  /** The pattern of a scan that starts with a search expression. */
  ghost function PatternOf(searchExpression: string): Option<string> {
    if searchExpression == "" then None else Some(searchExpression)
  }

  /** How far a scan has got: the position is the first key of child `b`, in 64 bits. */
  ghost predicate At(n: nat, first: int, posID: int, b: nat)
    requires n < 8
  {
    b <= 0x100 && posID == (first + b * Width(n + 1)) % TWO64
  }

  /** Behind child `b` the position wraps to 0. */
  ghost predicate Wrapped(last: int, b: nat) {
    b == 0x100 && last == TWO64 - 1
  }

  /** The last child has keys and ends at the last of all keys, so that a scan that lists it wraps to 0. */
  ghost predicate Unsafe(files: map<uint64, nat>, n: nat, first: int, last: int)
    requires n < 8
  {
    last == TWO64 - 1 && Exists(files, n, first, 0xFF)
  }

  // ---- what calls do, one after another ----

  /** Where a scan stands between two calls: in a pass over the directory, with this left to list, or at a key
      below the directory. */
  datatype Phase = Pass(left: seq<Entry>) | Stray(key: uint64)

  /** The child that a turn lists for the key it found. */
  ghost function EntryOfKey(files: map<uint64, nat>, n: nat, keep: string -> bool, key: uint64): seq<Entry>
    requires n < 8
  {
    var name := ByteName(ByteFrom(key, Width(n + 1)));
    if keep(name) then [Entry(name, n != 7, if n == 7 && key in files then files[key] else 0)] else []
  }

  /** Where a scan stands that goes on at `pos`, below the directory or at its start. */
  ghost function PhaseFrom(files: map<uint64, nat>, n: nat, first: int, keep: string -> bool, pos: int): Phase
    requires n < 8
  {
    var least := LowerBound(files.Keys, pos);
    if least.Some? && least.value < first then Stray(least.value) else Pass(Listing(files, n, first, keep, 0))
  }

  ghost function LeftIn(files: map<uint64, nat>, n: nat, keep: string -> bool, phase: Phase): seq<Entry>
    requires n < 8
  {
    match phase case Pass(left) => left case Stray(key) => EntryOfKey(files, n, keep, key)
  }

  /** A call with room for `capacity` entries: what it lists, and where it leaves the scan. In a pass it lists
      as much as fits; a stray key is listed by itself, as if it lay in the directory. Behind an unsafe
      directory the scan goes on at the least of all keys. */
  ghost function Call(files: map<uint64, nat>, n: nat, first: int, last: int, keep: string -> bool, phase: Phase,
                      capacity: nat): (seq<Entry>, Phase)
    requires n < 8
  {
    var left := LeftIn(files, n, keep, phase);
    if |left| > capacity then (left[..capacity], if phase.Pass? then Pass(left[capacity..]) else phase)
    else
      (left,
       match phase
       case Pass(_) => if Unsafe(files, n, first, last) then PhaseFrom(files, n, first, keep, 0) else Pass([])
       case Stray(key) => PhaseFrom(files, n, first, keep, NextMultiple(key, Width(n + 1))))
  }

  /** Where the position of a scan points: to a child of the directory, or below the directory. */
  datatype Place = Child(b: Slot) | Below(pos: nat)

  /** A child, or behind them all. */
  type Slot = b: nat | b <= 0x100

  ghost function PhaseAt(files: map<uint64, nat>, n: nat, first: int, keep: string -> bool, place: Place): Phase
    requires n < 8
  {
    match place
    case Child(b) => Pass(Listing(files, n, first, keep, b))
    case Below(pos) => PhaseFrom(files, n, first, keep, pos)
  }

  ghost predicate Stands(files: map<uint64, nat>, n: nat, first: int, last: int, posID: int, place: Place)
    requires n < 8
  {
    match place
    case Child(b) => At(n, first, posID, b) && !Wrapped(last, b)
    case Below(pos) => posID == pos < first && Unsafe(files, n, first, last)
  }

  // ---- the state of an enumeration ----

  class DirectoryEnumeration {
    const firstID: uint64
    const lastID: uint64
    ghost const depth: nat
    var scanInProgress: bool
    var filter: bool
    var pattern: string
    var posID: uint64

    /** `startDirectoryEnumeration`, for a by-id path that names a directory. */
    constructor (firstID: uint64, lastID: uint64, ghost depth: nat)
      requires depth < 8 && IsInterval(depth, firstID, lastID)
      ensures Valid() && this.firstID == firstID && this.lastID == lastID && this.depth == depth && !scanInProgress
    {
      this.firstID, this.lastID, this.depth := firstID, lastID, depth;
      scanInProgress, filter, pattern, posID := false, false, "", 0;
    }

    ghost predicate Valid() {
      depth < 8 && IsInterval(depth, firstID, lastID)
    }

    function Pattern(): Option<string>
      reads this
    {
      if filter then Some(pattern) else None
    }

    ghost predicate StandsAt(files: map<uint64, nat>, place: Place)
      requires Valid()
      reads this
    {
      Stands(files, depth, firstID, lastID, posID, place)
    }
  }

  lemma StartIsFirstChild(n: nat, first: int, last: int)
    requires n < 8 && IsInterval(n, first, last)
    ensures At(n, first, first, 0)
  {
    assert first < TWO64;
  }

  /** Where a scan that has not wrapped stands. */
  lemma {:induction false} Position(n: nat, first: int, last: int, posID: int, b: nat)
    requires n < 8 && IsInterval(n, first, last) && At(n, first, posID, b) && !Wrapped(last, b)
    ensures posID == first + b * Width(n + 1) && first <= posID <= last + 1
    ensures posID <= last <==> b < 0x100
    ensures posID > first <==> b > 0
  {
    hide Width;
    var w := Width(n + 1);
    WidthStep(n);
    ProductMonotone(w, b, 0x100);
    ProductMonotone(w, 0, b);
    if b < 0x100 {
      ProductMonotone(w, b + 1, 0x100);
      OneMore(w, b);
    }
    if b > 0 {
      ProductMonotone(w, 1, b);
    }
    assert b * w == w * b;
  }

  lemma {:induction false} WrapsToZero(n: nat, first: int, last: int, posID: int, b: nat)
    requires n < 8 && IsInterval(n, first, last) && At(n, first, posID, b) && Wrapped(last, b)
    ensures posID == 0
  {
    hide Width;
    WidthStep(n);
    assert first + 0x100 * Width(n + 1) == TWO64;
  }

  /** The scan found a key, listed in the child it lies in. */
  lemma {:induction false} StepTo(files: map<uint64, nat>, n: nat, first: int, last: int, keep: string -> bool,
                                  b: nat, key: uint64)
    requires n < 8 && IsInterval(n, first, last) && b < 0x100 && key <= last
    requires LowerBound(files.Keys, first + b * Width(n + 1)) == Some(key)
    ensures var c := ByteFrom(key, Width(n + 1));
      && b <= c && At(n, first, NextMultiple(key, Width(n + 1)), c + 1) && Exists(files, n, first, c)
      && EntryOf(files, n, first, c) == Entry(ByteName(c), n != 7, if n == 7 then files[key] else 0)
      && Listing(files, n, first, keep, b) ==
           (if keep(ByteName(c)) then [EntryOf(files, n, first, c)] else []) + Listing(files, n, first, keep, c + 1)
  {
    hide NextMultiple, ByteFrom, Width, LowerBound, ByteName, Exists;
    FoundChild(files, n, first, last, b, key);
    var c := ByteFrom(key, Width(n + 1));
    SkipEmpty(files, n, first, keep, b, c);
  }

  /** Nothing more to list. */
  lemma {:induction false} StepToEnd(files: map<uint64, nat>, n: nat, first: int, last: int, keep: string -> bool,
                                     b: nat)
    requires n < 8 && IsInterval(n, first, last) && b <= 0x100
    requires LowerBound(files.Keys, first + b * Width(n + 1)) == UpperBound(files.Keys, last)
    requires first + b * Width(n + 1) <= last + 1
    ensures Listing(files, n, first, keep, b) == []
    ensures b < 0x100 ==> !Exists(files, n, first, 0xFF)
  {
    hide Width, ByteName, Exists;
    NothingFound(files, n, first, last, b);
    SkipEmpty(files, n, first, keep, b, 0x100);
  }

  /** A call on a scan that stood at `place` does what `Call` says, and leaves the scan at `next`. */
  ghost predicate Continued(e: DirectoryEnumeration, files: map<uint64, nat>, keep: string -> bool, place: Place,
                            next: Place, capacity: nat, ok: bool, entries: seq<Entry>)
    requires e.Valid()
    reads e
  {
    var phase := PhaseAt(files, e.depth, e.firstID, keep, place);
    && e.StandsAt(files, next)
    && (entries, PhaseAt(files, e.depth, e.firstID, keep, next))
         == Call(files, e.depth, e.firstID, e.lastID, keep, phase, capacity)
    && (ok <==> capacity > 0 || LeftIn(files, e.depth, keep, phase) == [])
  }

  /** The loop while nothing has wrapped: what has been written, and what is left. */
  ghost predicate Scanning(e: DirectoryEnumeration, files: map<uint64, nat>, keep: string -> bool, b: nat, next: nat,
                           entries: seq<Entry>,
                           posID: int)
    requires e.Valid() && b <= 0x100
  {
    && At(e.depth, e.firstID, posID, next) && b <= next <= 0x100
    && Listing(files, e.depth, e.firstID, keep, b) == entries + Listing(files, e.depth, e.firstID, keep, next)
    && (Wrapped(e.lastID, next) ==> Exists(files, e.depth, e.firstID, 0xFF))
  }

  lemma {:induction false} StopAtLimit(e: DirectoryEnumeration, files: map<uint64, nat>, keep: string -> bool,
                                       b: nat, next: nat, entries: seq<Entry>, posID: int)
    requires e.Valid() && b <= 0x100 && Scanning(e, files, keep, b, next, entries, posID) && !Wrapped(e.lastID, next)
    requires LowerBound(files.Keys, posID) == UpperBound(files.Keys, e.lastID)
    ensures Listing(files, e.depth, e.firstID, keep, next) == []
    ensures next < 0x100 ==> !Exists(files, e.depth, e.firstID, 0xFF)
  {
    hide Listing, Exists, LowerBound;
    Position(e.depth, e.firstID, e.lastID, posID, next);
    StepToEnd(files, e.depth, e.firstID, e.lastID, keep, next);
  }

  /** One turn of the loop: the key that was found, and whether its entry was refused. */
  method ListChild(e: DirectoryEnumeration, files: map<uint64, nat>, keep: string -> bool, key: uint64,
                   entries: seq<Entry>, capacity: nat)
    returns (refused: bool, entriesNow: seq<Entry>)
    requires e.Valid() && key in files
    modifies e`posID
    ensures var w := Width(e.depth + 1); var name := ByteName(ByteFrom(key, w));
      && (refused <==> keep(name) && |entries| >= capacity)
      && (refused ==> e.posID == old(e.posID) && entriesNow == entries)
      && (!refused ==> e.posID == NextMultiple(key, w))
      && (!refused ==> entriesNow == entries + EntryOfKey(files, e.depth, keep, key))
  {
    hide NextMultiple, ByteFrom, ByteName;
    var split, byteOfChild, nextID := ByIdSplit(key, e.firstID, e.lastID);
    WidthIsByte(e.depth);
    assert split;
    NextAbove(key, e.depth);
    var name := ByteName(byteOfChild);
    entriesNow := entries;
    if keep(name) {
      var isFile := e.lastID - e.firstID == 0xFF;
      if |entries| >= capacity {
        return true, entries;
      }
      entriesNow := entries + [Entry(name, !isFile, if isFile then files[key] else 0)];
    }
    e.posID := nextID;
    refused := false;
  }

  lemma WidthIsByte(n: nat)
    requires n < 8
    ensures Width(n) - 1 == 0xFF <==> n == 7
  {
    WidthOf(n);
  }

  /** What `lower_bound` finds short of the limit is a key of the directory. */
  lemma FoundShortOfLimit(keys: set<uint64>, posID: int, lastID: int)
    requires posID <= lastID + 1 && LowerBound(keys, posID) != UpperBound(keys, lastID)
    ensures LowerBound(keys, posID).Some? && LowerBound(keys, posID).value <= lastID
  {
  }

  /** The child of a key below the directory ends behind the key, and before the directory. */
  lemma {:induction false} NextBelow(n: nat, first: int, last: int, key: uint64)
    requires n < 8 && IsInterval(n, first, last) && key < first
    ensures key < NextMultiple(key, Width(n + 1)) <= first
  {
    hide NextMultiple, ByteFrom, Width, Power256;
    var w, m := Width(n + 1), Power256(n + 1);
    var k0 := Blocks(n, first, last);
    WidthDivides(n + 1);
    QuotientBounds(key, w, 0, k0);
    OneMore(w, key / w);
    NextBlock(w, m, key / w, key % w);
    ProductMonotone(w, key / w + 1, k0);
    SmallProduct(w, key / w + 1, k0);
  }

  lemma SmallProduct(w: int, k: int, k0: int)
    requires 0 <= w * k <= w * k0 < TWO64
    ensures w * k % TWO64 == w * k
  {
  }

  /** What is found from a position below the directory on, unless it lies below the directory too, is what is
      found from the start of the directory on. */
  lemma FoundFromBelow(keys: set<uint64>, pos: int, first: int)
    requires pos <= first
    ensures match LowerBound(keys, pos)
            case None => LowerBound(keys, first) == None
            case Some(key) => key >= first ==> LowerBound(keys, first) == Some(key)
  {
  }

  lemma NotBehindAllKeys(keys: set<uint64>, pos: int)
    ensures LowerBound(keys, pos).Some? ==> LowerBound(keys, pos) != UpperBound(keys, TWO64 - 1)
  {
  }

  /** Where a call starts: at a stray key, or as if at a child of the directory. */
  lemma {:induction false} CallStart(e: DirectoryEnumeration, files: map<uint64, nat>, keep: string -> bool,
                                     place: Place)
    returns (start: nat, pos: int, stray: bool)
    requires e.Valid() && e.StandsAt(files, place)
    ensures e.posID <= e.lastID + 1
    ensures stray ==> Unsafe(files, e.depth, e.firstID, e.lastID) && LowerBound(files.Keys, e.posID).Some?
    ensures stray ==> PhaseAt(files, e.depth, e.firstID, keep, place) == Stray(LowerBound(files.Keys, e.posID).value)
    ensures !stray ==> start <= 0x100 && !Wrapped(e.lastID, start) && Scanning(e, files, keep, start, start, [], pos)
    ensures !stray ==>
      PhaseAt(files, e.depth, e.firstID, keep, place) == Pass(Listing(files, e.depth, e.firstID, keep, start))
    ensures !stray ==> LowerBound(files.Keys, pos) == LowerBound(files.Keys, e.posID)
    ensures !stray ==> pos == e.posID || (start == 0 && place == Below(e.posID))
  {
    hide Listing, LowerBound, At, Exists;
    stray := PhaseAt(files, e.depth, e.firstID, keep, place).Stray?;
    match place
    case Child(b) =>
      start, pos := b, e.posID;
      Position(e.depth, e.firstID, e.lastID, pos, b);
    case Below(_) =>
      start, pos := 0, e.firstID;
      StartIsFirstChild(e.depth, e.firstID, e.lastID);
      FoundFromBelow(files.Keys, e.posID, e.firstID);
  }

  lemma AllListed(e: DirectoryEnumeration, files: map<uint64, nat>, keep: string -> bool, next: nat,
                  entries: seq<Entry>, capacity: nat)
    requires e.Valid() && next <= 0x100 && Listing(files, e.depth, e.firstID, keep, next) == []
    requires next < 0x100 ==> !Exists(files, e.depth, e.firstID, 0xFF)
    ensures Stopped(e, files, keep, next, false, entries, capacity)
  {
  }

  /** The only turn of a call that starts at a stray key. */
  lemma {:induction false} OneStray(e: DirectoryEnumeration, files: map<uint64, nat>, keep: string -> bool,
                                    place: Place, key: uint64, refused: bool, entries: seq<Entry>, capacity: nat,
                                    ok: bool)
    returns (next: Place)
    requires e.Valid()
    requires PhaseAt(files, e.depth, e.firstID, keep, place) == Stray(key)
    requires Unsafe(files, e.depth, e.firstID, e.lastID)
    requires refused <==> keep(ByteName(ByteFrom(key, Width(e.depth + 1)))) && capacity == 0
    requires entries == if refused then [] else EntryOfKey(files, e.depth, keep, key)
    requires refused ==> e.StandsAt(files, place)
    requires !refused ==> e.posID == NextMultiple(key, Width(e.depth + 1))
    requires ok <==> !refused || entries != []
    ensures Continued(e, files, keep, place, next, capacity, ok, entries) && (!refused ==> e.posID <= e.firstID)
  {
    hide LowerBound, ByteFrom, ByteName, NextMultiple, Width, Listing, Exists;
    assert key < e.firstID;
    if refused {
      next := place;
    } else {
      NextBelow(e.depth, e.firstID, e.lastID, key);
      next := PlaceFrom(e, files, keep);
    }
  }

  /** A position below the directory, or at its start. */
  lemma {:induction false} PlaceFrom(e: DirectoryEnumeration, files: map<uint64, nat>, keep: string -> bool)
    returns (place: Place)
    requires e.Valid() && Unsafe(files, e.depth, e.firstID, e.lastID) && e.posID <= e.firstID
    ensures e.StandsAt(files, place)
    ensures PhaseAt(files, e.depth, e.firstID, keep, place) == PhaseFrom(files, e.depth, e.firstID, keep, e.posID)
  {
    hide At, LowerBound, Listing, Exists;
    if e.posID < e.firstID {
      place := Below(e.posID);
    } else {
      place := Child(0);
      StartIsFirstChild(e.depth, e.firstID, e.lastID);
      FoundFromBelow(files.Keys, e.posID, e.firstID);
      FoundBehind(files.Keys, e.firstID);
    }
  }

  lemma FoundBehind(keys: set<uint64>, pos: int)
    ensures LowerBound(keys, pos).Some? ==> LowerBound(keys, pos).value >= pos
  {
  }

  /** When the loop has stopped the call has done its part. */
  lemma {:induction false} CallEnds(e: DirectoryEnumeration, files: map<uint64, nat>, keep: string -> bool,
                                    place: Place, start: nat, b: nat, pos: int, refused: bool, capacity: nat, ok: bool,
                                    entries: seq<Entry>)
    returns (next: Place)
    requires e.Valid() && start <= 0x100 && b <= 0x100
    requires PhaseAt(files, e.depth, e.firstID, keep, place) == Pass(Listing(files, e.depth, e.firstID, keep, start))
    requires Scanning(e, files, keep, start, b, entries, pos) && |entries| <= capacity
    requires Stopped(e, files, keep, b, refused, entries, capacity)
    requires ok <==> !refused || entries != []
    requires pos == e.posID || (b == 0 && start == 0 && place == Below(e.posID) && e.StandsAt(files, place))
    ensures Continued(e, files, keep, place, next, capacity, ok, entries)
  {
    hide Listing, LowerBound, Exists, At, EntryOfKey;
    var left := Listing(files, e.depth, e.firstID, keep, start);
    var rest := Listing(files, e.depth, e.firstID, keep, b);
    CutAt(left, entries, rest, capacity, refused);
    if refused {
      NothingListedBehind(e, files, keep);
      next := if pos == e.posID then Child(b) else place;
    } else if Wrapped(e.lastID, b) {
      WrapsToZero(e.depth, e.firstID, e.lastID, pos, b);
      next := PlaceFrom(e, files, keep);
    } else {
      assert !Unsafe(files, e.depth, e.firstID, e.lastID) by { NotUnsafe(e, files, keep, b, entries, capacity); }
      next := Child(b);
    }
  }

  lemma CutAt(left: seq<Entry>, entries: seq<Entry>, rest: seq<Entry>, capacity: nat, refused: bool)
    requires left == entries + rest && |entries| <= capacity
    requires if refused then rest != [] && |entries| == capacity else rest == []
    ensures if refused then |left| > capacity && entries == left[..capacity] && rest == left[capacity..]
            else |left| <= capacity && entries == left
  {
  }

  /** A scan that has listed everything without wrapping is not of an unsafe directory. */
  lemma NotUnsafe(e: DirectoryEnumeration, files: map<uint64, nat>, keep: string -> bool, b: nat, entries: seq<Entry>,
                  capacity: nat)
    requires e.Valid() && b <= 0x100 && !Wrapped(e.lastID, b) && Stopped(e, files, keep, b, false, entries, capacity)
    ensures !Unsafe(files, e.depth, e.firstID, e.lastID)
  {
    hide Listing, Exists;
  }

  lemma NothingListedBehind(e: DirectoryEnumeration, files: map<uint64, nat>, keep: string -> bool)
    requires e.Valid()
    ensures Listing(files, e.depth, e.firstID, keep, 0x100) == []
  {
  }

  /** Where the loop may stop: everything is listed, or the buffer has refused an entry. */
  ghost predicate Stopped(e: DirectoryEnumeration, files: map<uint64, nat>, keep: string -> bool, next: nat,
                          refused: bool,
                          entries: seq<Entry>, capacity: nat)
    requires e.Valid() && next <= 0x100
  {
    var left := Listing(files, e.depth, e.firstID, keep, next);
    if refused then left != [] && |entries| == capacity
    else left == [] && (next < 0x100 ==> !Exists(files, e.depth, e.firstID, 0xFF))
  }

  lemma DepthBelow8(e: DirectoryEnumeration)
    requires e.Valid()
    ensures e.depth < 8
  {
  }

  /** A turn that finds a key lists the next child, or stops before it. */
  lemma {:induction false} AfterTurn(e: DirectoryEnumeration, files: map<uint64, nat>, keep: string -> bool, b: nat,
                                     next: nat,
                                     entries: seq<Entry>, posID: int, key: uint64,
                                     refused: bool, entriesNow: seq<Entry>, posNow: int, capacity: nat)
    returns (c: nat)
    requires e.Valid() && b <= 0x100 && Scanning(e, files, keep, b, next, entries, posID) && !Wrapped(e.lastID, next)
    requires LowerBound(files.Keys, posID) == Some(key) && key <= e.lastID && key in files && |entries| <= capacity
    requires var name := ByteName(ByteFrom(key, Width(e.depth + 1)));
      && (refused <==> keep(name) && |entries| >= capacity)
      && (refused ==> posNow == posID && entriesNow == entries)
      && (!refused ==> posNow == NextMultiple(key, Width(e.depth + 1)))
      && (!refused ==> entriesNow == entries + EntryOfKey(files, e.depth, keep, key))
    ensures c <= 0x100 && Scanning(e, files, keep, b, c, entriesNow, posNow) && |entriesNow| <= capacity
    ensures refused ==> c == next
    ensures var again := !refused && posNow > e.firstID && posNow <= e.lastID;
      && (again ==> !Wrapped(e.lastID, c) && c < 0x100)
      && (!again ==> Stopped(e, files, keep, c, refused, entriesNow, capacity))
  {
    hide NextMultiple, ByteFrom, ByteName, Width, LowerBound, Listing, EntryOf, Exists, At;
    Position(e.depth, e.firstID, e.lastID, posID, next);
    StepTo(files, e.depth, e.firstID, e.lastID, keep, next, key);
    if refused {
      c := next;
    } else {
      c := ByteFrom(key, Width(e.depth + 1)) + 1;
      NothingListedBehind(e, files, keep);
      if Wrapped(e.lastID, c) {
        WrapsToZero(e.depth, e.firstID, e.lastID, posNow, c);
      } else {
        Position(e.depth, e.firstID, e.lastID, posNow, c);
      }
    }
  }

  /** The loop of `getDirectoryEnumeration`. */
  method ScanChildren(e: DirectoryEnumeration, files: map<uint64, nat>, keep: string -> bool, capacity: nat,
                      ghost place: Place)
    returns (ok: bool, entries: seq<Entry>, ghost next: Place)
    requires e.Valid() && e.StandsAt(files, place)
    modifies e`posID
    ensures Continued(e, files, keep, place, next, capacity, ok, entries)
  {
    hide NextMultiple, ByteFrom, ByteName, Width, LowerBound, UpperBound, Listing, EntryOf, EntryOfKey, Exists, At;
    hide DirectoryEnumeration.Valid, Scanning, Stopped, Continued, PhaseAt, Stands;
    DepthBelow8(e);
    ghost var start, pos, stray := CallStart(e, files, keep, place);
    var enumerationLimit := UpperBound(files.Keys, e.lastID);
    entries, next, ok := [], place, true;
    ghost var b := start;
    var again, refused := true, false;
    while again
      invariant again ==> e.posID <= e.lastID + 1 && !refused
      invariant ok <==> !refused || entries != []
      invariant !stray && again ==> LowerBound(files.Keys, pos) == LowerBound(files.Keys, e.posID)
      invariant !stray ==> b <= 0x100 && Scanning(e, files, keep, start, b, entries, pos) && |entries| <= capacity
      invariant !stray && again ==> !Wrapped(e.lastID, b) && (b == 0x100 ==> entries == [])
      invariant !stray && !again ==> Stopped(e, files, keep, b, refused, entries, capacity)
      invariant !stray ==>
        pos == e.posID || (b == 0 && start == 0 && place == Below(e.posID) && e.StandsAt(files, place))
      invariant stray && again ==> entries == [] && e.posID == old(e.posID)
      invariant stray && !again ==> Continued(e, files, keep, place, next, capacity, ok, entries)
      decreases again, TWO64 - e.posID
    {
      var found := LowerBound(files.Keys, e.posID);
      if stray {
        NotBehindAllKeys(files.Keys, e.posID);
      }
      if found == enumerationLimit {
        again := false;
        if !stray {
          StopAtLimit(e, files, keep, start, b, entries, pos);
          AllListed(e, files, keep, b, entries, capacity);
        }
      } else {
        FoundShortOfLimit(files.Keys, e.posID, e.lastID);
        ghost var entriesBefore := entries;
        refused, entries := ListChild(e, files, keep, found.value, entries, capacity);
        NextAbove(found.value, e.depth);
        ok := !refused || entries != [];
        if !stray {
          ghost var posNow := if refused then pos else e.posID;
          b := AfterTurn(e, files, keep, start, b, entriesBefore, pos, found.value, refused, entries, posNow,
            capacity);
          pos := posNow;
        } else {
          next := OneStray(e, files, keep, place, found.value, refused, entries, capacity, ok);
        }
        again := !refused && e.posID > e.firstID && e.posID <= e.lastID;
      }
    }
    if !stray {
      next := CallEnds(e, files, keep, place, start, b, pos, refused, capacity, ok, entries);
    }
  }

  /** `getDirectoryEnumeration` for a by-id directory, with a buffer that takes `capacity` entries and refuses
      the next; `ok` is false where it returns the buffer's error. */
  method GetDirectoryEnumeration(e: DirectoryEnumeration, files: map<uint64, nat>,
                                 nameMatches: (string, string) -> bool, restart: bool, searchExpression: string,
                                 capacity: nat, ghost place: Place)
    returns (ok: bool, entries: seq<Entry>, ghost next: Place)
    requires e.Valid() && (if e.scanInProgress && !restart then e.StandsAt(files, place) else place == Child(0))
    modifies e
    ensures e.scanInProgress
    ensures e.Pattern() == if old(e.scanInProgress) && !restart then old(e.Pattern()) else PatternOf(searchExpression)
    ensures Continued(e, files, Keeps(e.Pattern(), nameMatches), place, next, capacity, ok, entries)
  {
    hide At;
    if !e.scanInProgress || restart {
      e.scanInProgress := true;
      if searchExpression != "" {
        e.filter := true;
        e.pattern := searchExpression;
      } else {
        e.filter := false;
      }
      e.posID := e.firstID;
      StartIsFirstChild(e.depth, e.firstID, e.lastID);
    }
    ok, entries, next := ScanChildren(e, files, Keeps(e.Pattern(), nameMatches), capacity, place);
  }
}
