/** Whole scans of by-id directories, and the tree they make up. */
module DirectoryTree {
  import opened Arithmetic
  import opened Bytes
  import opened ById
  import opened DirectoryScan
  import opened Enumeration
  import opened Numbers
  import opened Paths

  // ---- runs of calls ----

  /** A run of calls, each with a buffer of its own size: what they list, and where they leave the scan. */
  ghost function Run(files: map<uint64, nat>, n: nat, first: int, last: int, keep: string -> bool, phase: Phase,
                     capacities: seq<nat>): (seq<Entry>, Phase)
    requires n < 8
    decreases |capacities|
  {
    if capacities == [] then ([], phase)
    else
      var (entries, between) := Call(files, n, first, last, keep, phase, capacities[0]);
      var (more, end) := Run(files, n, first, last, keep, between, capacities[1..]);
      (entries + more, end)
  }

  /** A scan, call by call: together the calls list what `Run` says from the start of the directory on. */
  method Enumerate(e: DirectoryEnumeration, files: map<uint64, nat>, nameMatches: (string, string) -> bool,
                   searchExpression: string, capacities: seq<nat>)
    returns (all: seq<Entry>)
    requires e.Valid() && !e.scanInProgress
    modifies e
    ensures var keep := Keeps(PatternOf(searchExpression), nameMatches);
      var start := Pass(Listing(files, e.depth, e.firstID, keep, 0));
      all == Run(files, e.depth, e.firstID, e.lastID, keep, start, capacities).0
    ensures searchExpression != "" ==> forall i :: 0 <= i < |all| ==> nameMatches(all[i].name, searchExpression)
    ensures !Unsafe(files, e.depth, e.firstID, e.lastID) && Sum(capacities) >= 0x100 ==>
      && (forall b: byte :: Exists(files, e.depth, e.firstID, b) ==>
            (searchExpression == "" || nameMatches(ByteName(b), searchExpression) ==>
               EntryOf(files, e.depth, e.firstID, b) in all))
      && EntriesOnce(files, e.depth, e.firstID, all)
  {
    hide Listing, Exists, At, Stands, Call, PhaseFrom, Keeps;
    ghost var keep := Keeps(PatternOf(searchExpression), nameMatches);
    ghost var start := Pass(Listing(files, e.depth, e.firstID, keep, 0));
    ghost var place := Child(0);
    all := [];
    var i := 0;
    assert capacities[0..] == capacities;
    while i < |capacities|
      invariant 0 <= i <= |capacities| && (e.scanInProgress <==> i > 0)
      invariant i == 0 ==> place == Child(0)
      invariant i > 0 ==> e.StandsAt(files, place) && e.Pattern() == PatternOf(searchExpression)
      invariant Run(files, e.depth, e.firstID, e.lastID, keep, start, capacities).0 == all +
        Run(files, e.depth, e.firstID, e.lastID, keep, PhaseAt(files, e.depth, e.firstID, keep, place),
            capacities[i..]).0
    {
      ghost var phase := PhaseAt(files, e.depth, e.firstID, keep, place);
      var ok, entries;
      ok, entries, place := GetDirectoryEnumeration(e, files, nameMatches, false, searchExpression, capacities[i],
        place);
      assert capacities[i..][0] == capacities[i] && capacities[i..][1..] == capacities[i + 1..];
      all := all + entries;
      i := i + 1;
    }
    Matching(files, e.depth, e.firstID, e.lastID, nameMatches, searchExpression, capacities);
  }

  /** The entry is that of a child with keys. */
  ghost predicate IsEntry(files: map<uint64, nat>, n: nat, first: int, entry: Entry)
    requires n < 8
  {
    exists b: byte :: Exists(files, n, first, b) && entry == EntryOf(files, n, first, b)
  }

  /** There are entries of children with keys only, and not two of one name. */
  ghost predicate EntriesOnce(files: map<uint64, nat>, n: nat, first: int, all: seq<Entry>)
    requires n < 8
  {
    && (forall i :: 0 <= i < |all| ==> IsEntry(files, n, first, all[i]))
    && forall i, j :: 0 <= i < j < |all| ==> all[i].name != all[j].name
  }

  /** What a run lists matches the search expression; with room for it, everything that does is listed. */
  lemma {:induction false} Matching(files: map<uint64, nat>, n: nat, first: int, last: int,
                                    nameMatches: (string, string) -> bool, searchExpression: string,
                                    capacities: seq<nat>)
    requires n < 8
    ensures var keep := Keeps(PatternOf(searchExpression), nameMatches);
      var all := Run(files, n, first, last, keep, Pass(Listing(files, n, first, keep, 0)), capacities).0;
      && (searchExpression != "" ==> forall i :: 0 <= i < |all| ==> nameMatches(all[i].name, searchExpression))
      && (!Unsafe(files, n, first, last) && Sum(capacities) >= 0x100 ==>
            && (forall b: byte :: Exists(files, n, first, b) ==>
                  (searchExpression == "" || nameMatches(ByteName(b), searchExpression) ==>
                     EntryOf(files, n, first, b) in all))
            && EntriesOnce(files, n, first, all))
  {
    hide Listing, Exists, Unsafe, EntryOf, ByteName, Run, EntriesOnce, Sum, Keeps, PatternOf;
    var keep := Keeps(PatternOf(searchExpression), nameMatches);
    var whole := Listing(files, n, first, keep, 0);
    KeptNames(files, n, first, keep, 0);
    OnlyKept(files, n, first, last, keep, Pass(whole), capacities);
    KeepsMatching(searchExpression, nameMatches);
    if !Unsafe(files, n, first, last) && Sum(capacities) >= 0x100 {
      ListedOnce(files, n, first, last, keep, whole, capacities);
      ListingBounded(files, n, first, keep, 0);
      assert whole[..|whole|] == whole;
      EachKept(files, n, first, keep, 0);
      EachOnce(files, n, first, keep, 0);
    }
  }

  lemma KeepsMatching(searchExpression: string, nameMatches: (string, string) -> bool)
    ensures forall name :: Keeps(PatternOf(searchExpression), nameMatches)(name) <==>
      searchExpression == "" || nameMatches(name, searchExpression)
  {
  }

  lemma ListingEnds(files: map<uint64, nat>, n: nat, first: int, keep: string -> bool)
    requires n < 8
    ensures Listing(files, n, first, keep, 0x100) == []
  {
  }

  lemma {:induction false} ListingStep(files: map<uint64, nat>, n: nat, first: int, keep: string -> bool, b: byte)
    requires n < 8
    ensures Listing(files, n, first, keep, b) ==
      (if Exists(files, n, first, b) && keep(ByteName(b)) then [EntryOf(files, n, first, b)] else [])
      + Listing(files, n, first, keep, b + 1)
  {
  }

  /** A listing has only names that are kept. */
  lemma {:induction false} KeptNames(files: map<uint64, nat>, n: nat, first: int, keep: string -> bool, b: nat)
    requires n < 8 && b <= 0x100
    ensures forall entry :: entry in Listing(files, n, first, keep, b) ==> keep(entry.name)
    decreases 0x100 - b
  {
    hide Exists, ByteName, EntryOf, Listing;
    ListingEnds(files, n, first, keep);
    if b < 0x100 {
      ListingStep(files, n, first, keep, b);
      EntryNames(files, n, first, b);
      KeptNames(files, n, first, keep, b + 1);
    }
  }

  /** So has whatever calls list. */
  lemma {:induction false} OnlyKept(files: map<uint64, nat>, n: nat, first: int, last: int, keep: string -> bool,
                                    phase: Phase, capacities: seq<nat>)
    requires n < 8 && (phase.Pass? ==> forall entry :: entry in phase.left ==> keep(entry.name))
    ensures forall entry :: entry in Run(files, n, first, last, keep, phase, capacities).0 ==> keep(entry.name)
    decreases |capacities|
  {
    hide Listing, LowerBound, Unsafe, ByteName, ByteFrom, NextMultiple, Width;
    if capacities != [] {
      KeptNames(files, n, first, keep, 0);
      var (entries, between) := Call(files, n, first, last, keep, phase, capacities[0]);
      OnlyKept(files, n, first, last, keep, between, capacities[1..]);
    }
  }

  /** Every child that exists and is kept has its entry. */
  lemma {:induction false} EachKept(files: map<uint64, nat>, n: nat, first: int, keep: string -> bool, b: nat)
    requires n < 8 && b <= 0x100
    ensures forall c: byte :: b <= c && Exists(files, n, first, c) && keep(ByteName(c)) ==>
      EntryOf(files, n, first, c) in Listing(files, n, first, keep, b)
    decreases 0x100 - b
  {
    hide Exists, ByteName, EntryOf, Listing;
    if b < 0x100 {
      ListingStep(files, n, first, keep, b);
      EachKept(files, n, first, keep, b + 1);
    }
  }

  /** Entries are those of children from `b` on, so that no two have one name. */
  lemma {:induction false} EachOnce(files: map<uint64, nat>, n: nat, first: int, keep: string -> bool, b: nat)
    requires n < 8 && b <= 0x100
    ensures EntriesOnce(files, n, first, Listing(files, n, first, keep, b))
    ensures forall entry :: entry in Listing(files, n, first, keep, b) ==>
      IsByteName(entry.name) && ByteOfName(entry.name) >= b
    decreases 0x100 - b
  {
    hide Exists, ByteName, EntryOf, Listing, IsByteName, ByteOfName;
    ListingEnds(files, n, first, keep);
    if b < 0x100 {
      ListingStep(files, n, first, keep, b);
      EntryNames(files, n, first, b);
      EachOnce(files, n, first, keep, b + 1);
      if Exists(files, n, first, b) {
        assert IsEntry(files, n, first, EntryOf(files, n, first, b));
      }
    }
  }

  lemma EntryNames(files: map<uint64, nat>, n: nat, first: int, b: byte)
    ensures var name := EntryOf(files, n, first, b).name;
      name == ByteName(b) && IsByteName(name) && ByteOfName(name) == b
  {
  }

  lemma {:induction false} ListingBounded(files: map<uint64, nat>, n: nat, first: int, keep: string -> bool, b: nat)
    requires n < 8 && b <= 0x100
    ensures |Listing(files, n, first, keep, b)| <= 0x100 - b
    decreases 0x100 - b
  {
    hide Exists, EntryOf, ByteName;
    if b < 0x100 {
      ListingBounded(files, n, first, keep, b + 1);
    }
  }

  /** An uninterrupted call lists the whole directory, and leaves the scan behind it or, of an unsafe directory,
      at the least of all keys. */
  lemma WholeScan(files: map<uint64, nat>, n: nat, first: int, last: int, keep: string -> bool, capacity: nat)
    requires n < 8 && capacity >= 0x100
    ensures var whole := Listing(files, n, first, keep, 0);
      Call(files, n, first, last, keep, Pass(whole), capacity) ==
        (whole, if Unsafe(files, n, first, last) then PhaseFrom(files, n, first, keep, 0) else Pass([]))
  {
    hide Listing, PhaseFrom, Unsafe;
    ListingBounded(files, n, first, keep, 0);
  }

  // ---- directories that a scan gets to the end of ----

  ghost function Sum(capacities: seq<nat>): nat {
    if capacities == [] then 0 else capacities[0] + Sum(capacities[1..])
  }

  /** However the calls cut it up, a scan that does not wrap lists what is left as far as the buffers reach, and
      nothing after that. */
  lemma {:induction false} ListedOnce(files: map<uint64, nat>, n: nat, first: int, last: int, keep: string -> bool,
                                      left: seq<Entry>, capacities: seq<nat>)
    requires n < 8 && !Unsafe(files, n, first, last)
    ensures Run(files, n, first, last, keep, Pass(left), capacities).0 == left[..Min(Sum(capacities), |left|)]
    decreases |capacities|
  {
    hide Unsafe, PhaseFrom, EntryOfKey;
    if capacities != [] {
      var c := capacities[0];
      var left' := if |left| > c then left[c..] else [];
      assert left[..|left|] == left;
      assert Call(files, n, first, last, keep, Pass(left), c) == (left[..Min(c, |left|)], Pass(left'));
      ListedOnce(files, n, first, last, keep, left', capacities[1..]);
      CutTwice(left, c, Sum(capacities[1..]));
    }
  }

  lemma CutTwice(left: seq<Entry>, c: nat, more: nat)
    ensures var left' := if |left| > c then left[c..] else [];
      left[..Min(c, |left|)] + left'[..Min(more, |left'|)] == left[..Min(c + more, |left|)]
  {
  }

  // ---- directories that a scan begins again ----

  /** What the calls at the stray keys from `pos` on list. */
  ghost function Strays(files: map<uint64, nat>, n: nat, first: int, keep: string -> bool, pos: int): seq<Entry>
    requires n < 8 && IsInterval(n, first, first + Width(n) - 1)
    decreases first - pos
  {
    var least := LowerBound(files.Keys, pos);
    if least.Some? && least.value < first then
      NextBelow(n, first, first + Width(n) - 1, least.value);
      EntryOfKey(files, n, keep, least.value) + Strays(files, n, first, keep, NextMultiple(least.value, Width(n + 1)))
    else []
  }

  /** What an unsafe directory lists before it begins again: its children, and what the stray keys stand for. */
  ghost function Round(files: map<uint64, nat>, n: nat, first: int, keep: string -> bool): seq<Entry>
    requires n < 8 && IsInterval(n, first, first + Width(n) - 1)
  {
    Listing(files, n, first, keep, 0) + Strays(files, n, first, keep, 0)
  }

  ghost function Repeat(s: seq<Entry>, times: nat): seq<Entry> {
    if times == 0 then [] else s + Repeat(s, times - 1)
  }

  /** What is left of a round. */
  ghost function RestOf(files: map<uint64, nat>, n: nat, first: int, keep: string -> bool, phase: Phase): seq<Entry>
    requires n < 8 && IsInterval(n, first, first + Width(n) - 1) && (phase.Stray? ==> phase.key < first)
  {
    match phase
    case Pass(left) => left + Strays(files, n, first, keep, 0)
    case Stray(key) =>
      EntryOfKey(files, n, keep, key) + Strays(files, n, first, keep, NextMultiple(key, Width(n + 1)))
  }

  /** Going on at `pos` goes on with the stray keys, or begins a new round. */
  lemma {:induction false} RestFrom(files: map<uint64, nat>, n: nat, first: int, keep: string -> bool, pos: int)
    requires n < 8 && IsInterval(n, first, first + Width(n) - 1)
    ensures var phase := PhaseFrom(files, n, first, keep, pos); var strays := Strays(files, n, first, keep, pos);
      && (phase.Stray? ==> phase.key < first)
      && RestOf(files, n, first, keep, phase) ==
           if phase.Stray? then strays else strays + Round(files, n, first, keep)
  {
    hide Listing, LowerBound, EntryOfKey, NextMultiple, Width, IsInterval;
    assert forall s: seq<Entry> :: [] + s == s;
  }

  /** One call lists a piece of what is left of the round, or the last of it and begins a new one. */
  lemma {:induction false} OneCall(files: map<uint64, nat>, n: nat, first: int, last: int, keep: string -> bool,
                                   phase: Phase, capacity: nat)
    requires n < 8 && IsInterval(n, first, last) && Unsafe(files, n, first, last)
    requires phase.Stray? ==> phase.key < first
    ensures var (entries, next) := Call(files, n, first, last, keep, phase, capacity);
      var rest := RestOf(files, n, first, keep, phase);
      && (next.Stray? ==> next.key < first)
      && (rest == entries + RestOf(files, n, first, keep, next)
          || rest + Round(files, n, first, keep) == entries + RestOf(files, n, first, keep, next))
  {
    hide Listing, LowerBound, ByteName, ByteFrom, NextMultiple, Width, PhaseFrom, Strays, Round, Unsafe;
    var left := LeftIn(files, n, keep, phase);
    if |left| > capacity {
      if phase.Pass? {
        Regrouped(left[..capacity], left[capacity..], Strays(files, n, first, keep, 0));
        assert left == left[..capacity] + left[capacity..];
      } else {
        assert left[..capacity] == [];
      }
    } else {
      var pos := match phase case Pass(_) => 0 case Stray(key) => NextMultiple(key, Width(n + 1));
      RestFrom(files, n, first, keep, pos);
      Regrouped(left, Strays(files, n, first, keep, pos), Round(files, n, first, keep));
    }
  }

  lemma Regrouped(a: seq<Entry>, b: seq<Entry>, c: seq<Entry>)
    ensures a + b + c == a + (b + c)
  {
  }

  /** Whatever buffers interrupt it, what a scan of an unsafe directory lists is the beginning of its round over
      and over. */
  lemma {:induction false} ListedAgain(files: map<uint64, nat>, n: nat, first: int, last: int, keep: string -> bool,
                                       phase: Phase, capacities: seq<nat>)
    requires n < 8 && IsInterval(n, first, last) && Unsafe(files, n, first, last)
    requires phase.Stray? ==> phase.key < first
    ensures Run(files, n, first, last, keep, phase, capacities).0 <=
      RestOf(files, n, first, keep, phase) + Repeat(Round(files, n, first, keep), |capacities|)
    decreases |capacities|
  {
    hide Listing, Call, RestOf, Round, Unsafe, Width;
    if capacities != [] {
      var (entries, next) := Call(files, n, first, last, keep, phase, capacities[0]);
      OneCall(files, n, first, last, keep, phase, capacities[0]);
      ListedAgain(files, n, first, last, keep, next, capacities[1..]);
      var round, times := Round(files, n, first, keep), |capacities| - 1;
      PrefixStep(entries, Run(files, n, first, last, keep, next, capacities[1..]).0,
        RestOf(files, n, first, keep, phase), RestOf(files, n, first, keep, next), round, times);
    }
  }

  lemma {:induction false} RepeatEnds(s: seq<Entry>, times: nat)
    ensures Repeat(s, times + 1) == Repeat(s, times) + s
  {
    if times > 0 {
      RepeatEnds(s, times - 1);
    } else {
      assert s + [] == [] + s;
    }
  }

  lemma PrefixStep(entries: seq<Entry>, more: seq<Entry>, rest: seq<Entry>, restNext: seq<Entry>, round: seq<Entry>,
                   times: nat)
    requires more <= restNext + Repeat(round, times)
    requires rest == entries + restNext || rest + round == entries + restNext
    ensures entries + more <= rest + Repeat(round, times + 1)
  {
    var tail, long := Repeat(round, times), Repeat(round, times + 1);
    assert entries + more <= entries + (restNext + tail);
    if rest == entries + restNext {
      RepeatEnds(round, times);
      assert rest + long == entries + (restNext + tail) + round;
    } else {
      assert long == round + tail;
      assert rest + long == (rest + round) + tail == entries + (restNext + tail);
    }
  }

  // ---- whether a scan comes to an end ----

  lemma {:induction false} ListedIfExists(files: map<uint64, nat>, n: nat, first: int, keep: string -> bool, b: nat)
    requires n < 8 && b < 0x100 && Exists(files, n, first, 0xFF) && forall name :: keep(name)
    ensures Listing(files, n, first, keep, b) != []
    decreases 0x100 - b
  {
    hide Exists, ByteName, EntryOf;
    if b < 0xFF {
      ListedIfExists(files, n, first, keep, b + 1);
    }
  }

  /** Without a filter, no call that has room for an entry comes back empty from an unsafe directory. */
  lemma {:induction false} NeverEmpty(files: map<uint64, nat>, n: nat, first: int, last: int, keep: string -> bool,
                                      phase: Phase, capacities: seq<nat>)
    requires n < 8 && Unsafe(files, n, first, last) && (forall name :: keep(name)) && phase != Pass([])
    requires forall i :: 0 <= i < |capacities| ==> capacities[i] > 0
    ensures |Run(files, n, first, last, keep, phase, capacities).0| >= |capacities|
    decreases |capacities|
  {
    hide Listing, Exists, LowerBound, ByteName, ByteFrom, Width, NextMultiple;
    if capacities != [] {
      ListedIfExists(files, n, first, keep, 0);
      var (entries, next) := Call(files, n, first, last, keep, phase, capacities[0]);
      assert |entries| >= 1 && next != Pass([]);
      NeverEmpty(files, n, first, last, keep, next, capacities[1..]);
    }
  }

  /** No run of calls from the start of the directory on lists more than `bound` entries. */
  ghost predicate Bounded(files: map<uint64, nat>, n: nat, first: int, last: int, keep: string -> bool, bound: nat)
    requires n < 8
  {
    forall capacities: seq<nat> ::
      |Run(files, n, first, last, keep, Pass(Listing(files, n, first, keep, 0)), capacities).0| <= bound
  }

  /** Without a filter, what a scan lists is bounded exactly if the directory is not unsafe. */
  lemma {:induction false} EndsIffSafe(files: map<uint64, nat>, n: nat, first: int, last: int, keep: string -> bool)
    requires n < 8 && forall name :: keep(name)
    ensures (exists bound: nat :: Bounded(files, n, first, last, keep, bound)) <==> !Unsafe(files, n, first, last)
  {
    hide Listing, Run, Exists;
    var whole := Listing(files, n, first, keep, 0);
    if Unsafe(files, n, first, last) {
      ListedIfExists(files, n, first, keep, 0);
      forall bound: nat
        ensures !Bounded(files, n, first, last, keep, bound)
      {
        NeverEmpty(files, n, first, last, keep, Pass(whole), seq(bound + 1, i => 1));
      }
    } else {
      forall capacities: seq<nat>
        ensures |Run(files, n, first, last, keep, Pass(whole), capacities).0| <= |whole|
      {
        ListedOnce(files, n, first, last, keep, whole, capacities);
      }
      assert Bounded(files, n, first, last, keep, |whole|);
    }
  }

  /** A case: the highest key of all, in its directory. */
  lemma LastDirectoryIsUnsafe(e: DirectoryEnumeration)
    requires e.Valid() && e.depth == 7 && e.lastID == TWO64 - 1
    ensures Unsafe(map[TWO64 - 1 := 1], e.depth, e.firstID, e.lastID)
  {
    Widths();
    var files: map<uint64, nat> := map[TWO64 - 1 := 1];
    assert TWO64 - 1 in files.Keys;
  }

  // ---- placeholders ----

  datatype Placeholder = Placeholder(isDirectory: bool, size: nat)

  /** The by-id part of `getPlaceholderInfo`; `None` where it reports that the file is not found, or where the
      path is not of the by-id tree. */
  method GetPlaceholderInfo(files: map<uint64, nat>, path: string, isRootName: string -> bool)
    returns (byID: bool, r: Option<Placeholder>)
    ensures byID <==> ParseNames(Split(Strip(path)), isRootName).Some?
    ensures byID ==> r == PlaceholderOf(files, ParseNames(Split(Strip(path)), isRootName).value)
  {
    hide Split, Strip, ParseNames;
    var firstID, lastID;
    byID, firstID, lastID := ParseByIDName(path, isRootName);
    if !byID {
      return false, None;
    }
    ParsedInterval(Split(Strip(path)), isRootName);
    if firstID == lastID {
      r := if firstID in files then Some(Placeholder(false, files[firstID])) else None;
    } else {
      var lower, upper := LowerBound(files.Keys, firstID), UpperBound(files.Keys, lastID);
      r := if lower == upper then None else Some(Placeholder(true, 0));
    }
  }

  lemma ParsedInterval(names: seq<string>, isRootName: string -> bool)
    requires ParseNames(names, isRootName).Some?
    ensures var (n, first, last) := ParseNames(names, isRootName).value; IsInterval(n, first, last)
  {
  }

  /** A directory exists when some key lies in its interval, a file when its key does. */
  ghost function PlaceholderOf(files: map<uint64, nat>, interval: (nat, int, int)): Option<Placeholder> {
    var (n, first, last) := interval;
    if !HasKey(files.Keys, first, last) then None
    else if first ==
      last then if 0 <= first < TWO64 && first in files then Some(Placeholder(false, files[first])) else None
    else Some(Placeholder(true, 0))
  }

  /** A child is listed exactly when its path has a placeholder, and with the same kind and size. */
  lemma {:induction false} ListedIffAccepted(files: map<uint64, nat>, n: nat, first: int, last: int, b: byte,
                                             isRootName: string -> bool)
    requires n < 8 && IsInterval(n, first, last) && isRootName("by-id")
    ensures var path := Join(NamesFor(first, n)) + [SEPARATOR] + ByteName(b);
      var parsed := ParseNames(Split(Strip(path)), isRootName);
      && parsed == Some((n + 1, first + b * Width(n + 1), first + b * Width(n + 1) + Width(n + 1) - 1))
      && (Exists(files, n, first, b) <==> PlaceholderOf(files, parsed.value).Some?)
      && (Exists(files, n, first, b) ==>
            var entry := EntryOf(files, n, first, b);
            PlaceholderOf(files, parsed.value) == Some(Placeholder(entry.isDirectory, entry.size)))
  {
    hide Split, Strip, ParseNames, Join, NamesFor, Width, PlaceholderOf, Exists, EntryOf, IsInterval;
    ChildPath(n, first, last, b, isRootName);
    ChildPlaceholder(files, n, first, last, b);
  }

  lemma {:induction false} ChildPlaceholder(files: map<uint64, nat>, n: nat, first: int, last: int, b: byte)
    requires n < 8 && IsInterval(n, first, last)
    ensures var childFirst := first + b * Width(n + 1);
      var placeholder := PlaceholderOf(files, (n + 1, childFirst, childFirst + Width(n + 1) - 1));
      var entry := EntryOf(files, n, first, b);
      && (Exists(files, n, first, b) <==> placeholder.Some?)
      && (placeholder.Some? ==> placeholder.value == Placeholder(entry.isDirectory, entry.size))
  {
    hide Width, ByteName;
    ChildInterval(n, first, last, b);
    WidthOf(n);
    WidthOfNext(n);
  }

  /** The first key of child `b`. */
  ghost function ChildStart(n: nat, first: int, b: int): int
    requires n < 8
  {
    first + b * Width(n + 1)
  }

  lemma ChildStarts(n: nat, first: int, c: int)
    requires n < 8
    ensures ChildStart(n, first, 0) == first && ChildStart(n, first, 0x100) == first + Width(n)
    ensures ChildStart(n, first, c + 1) == ChildStart(n, first, c) + Width(n + 1)
  {
    hide Width;
    WidthStep(n);
    OneMore(Width(n + 1), c);
  }

  /** The path of a child, parsed. */
  lemma {:induction false} ChildPath(n: nat, first: int, last: int, b: byte, isRootName: string -> bool)
    requires n < 8 && IsInterval(n, first, last) && isRootName("by-id")
    ensures var childFirst := ChildStart(n, first, b);
      && IsInterval(n + 1, childFirst, childFirst + Width(n + 1) - 1)
      && Join(NamesFor(first, n)) + [SEPARATOR] + ByteName(b) == Join(NamesFor(childFirst, n + 1))
      && ParseNames(Split(Strip(Join(NamesFor(childFirst, n + 1)))), isRootName)
           == Some((n + 1, childFirst, childFirst + Width(n + 1) - 1))
  {
    hide Width, Join, ParseNames, Split, Strip, ByteAt;
    var childFirst := ChildStart(n, first, b);
    ChildInterval(n, first, last, b);
    ChildByte(n, first, last, b);
    NamesForOneMore(childFirst, n);
    SameNames(childFirst, first, n);
    PathRoundTrip(childFirst, n + 1, isRootName);
    FloorOfInterval(n + 1, childFirst, childFirst + Width(n + 1) - 1);
  }

  lemma {:induction false} ChildByte(n: nat, first: int, last: int, b: byte)
    requires n < 8 && IsInterval(n, first, last)
    ensures first + b * Width(n + 1) < TWO64 && ByteAt(first + b * Width(n + 1), 7 - n) == b
    ensures Floor(first + b * Width(n + 1), n) == first
  {
    ChildInterval(n, first, last, b);
    WidthStep(n);
    var w := Width(n + 1);
    var q := first / (0x100 * w);
    assert first == 0x100 * w * q;
    ByteBetween(w, q, b, 0);
    FloorUnique(0x100 * w, q, b * w);
  }

  lemma FloorUnique(w: int, q: int, r: int)
    requires w >= 1 && 0 <= r < w
    ensures (w * q + r) / w * w == w * q
  {
    QuotientUnique(w * q + r, w, q, r);
  }

  /** The first `n` names depend on the first `n` bytes only. */
  lemma {:induction false} SameNames(key: uint64, first: uint64, n: nat)
    requires n <= 8 && Floor(key, n) == first
    ensures NamesFor(key, n) == NamesFor(first, n)
  {
    SameByteNames(key, first, n, n);
  }

  lemma {:induction false} SameByteNames(key: uint64, first: uint64, n: nat, k: nat)
    requires k <= n <= 8 && Floor(key, n) == first
    ensures ByteNames(key, k) == ByteNames(first, k)
  {
    hide ByteName;
    if k > 0 {
      SameByteNames(key, first, n, k - 1);
      SameByte(key, n, k);
    }
  }

  /** Clearing lower bytes does not change a higher one. */
  lemma {:induction false} SameByte(key: uint64, n: nat, k: nat)
    requires 1 <= k <= n <= 8
    ensures ByteAt(Floor(key, n), 8 - k) == ByteAt(key, 8 - k)
    decreases n - k
  {
    hide Floor;
    if n == k {
      FloorByte(key, n);
    } else {
      SameByte(key, k, k);
      FloorOfFloor(key, k, n);
      SameByte(Floor(key, n), k, k);
    }
  }

  lemma FloorByte(key: uint64, n: nat)
    requires 1 <= n <= 8
    ensures ByteAt(Floor(key, n), 8 - n) == ByteAt(key, 8 - n)
  {
    var w := Width(n);
    FloorBounds(key, w);
    assert key / w * w == w * (key / w);
    QuotientUnique(w * (key / w), w, key / w, 0);
  }

  lemma {:induction false} FloorOfFloor(key: uint64, k: nat, n: nat)
    requires k <= n <= 8
    ensures Floor(Floor(key, n), k) == Floor(key, k)
    decreases n - k
  {
    hide Width, ByteAt;
    FloorInside(key, k, n);
    FloorNear(key, Floor(key, n), k);
  }

  /** Keys of one directory have one floor. */
  lemma {:induction false} FloorNear(key: uint64, x: uint64, k: nat)
    requires k <= 8 && Floor(key, k) <= x < Floor(key, k) + Width(k)
    ensures Floor(x, k) == Floor(key, k)
  {
    hide Width;
    var w := Width(k);
    var r := x - Floor(key, k);
    FloorUnique(w, key / w, r);
    assert w * (key / w) == Floor(key, k);
  }

  /** The floor at a deeper level is no lower. */
  lemma {:induction false} FloorInside(key: uint64, k: nat, n: nat)
    requires k <= n <= 8
    ensures Floor(key, k) <= Floor(key, n) <= key < Floor(key, k) + Width(k)
    decreases n - k
  {
    hide Floor, Width, ByteAt;
    FloorIsInterval(key, k);
    if k < n {
      FloorInside(key, k, n - 1);
      FloorStep(key, n - 1);
      ProductMonotone(Width(n), 0, ByteAt(key, 8 - n));
    }
  }

  // ---- the whole tree ----

  /** All keys from `low` to `high`, each once and ascending. */
  ghost predicate AllKeys(files: map<uint64, nat>, low: int, high: int, keys: seq<int>) {
    && (forall i, j :: 0 <= i < j < |keys| ==> keys[i] < keys[j])
    && (forall k :: k in keys <==> 0 <= k < TWO64 && k in files && low <= k <= high)
  }

  lemma AllKeysJoin(files: map<uint64, nat>, low: int, middle: int, high: int, keys: seq<int>, more: seq<int>)
    requires low <= middle <= high + 1 && AllKeys(files, low, middle - 1, keys) && AllKeys(files, middle, high, more)
    ensures AllKeys(files, low, high, keys + more)
  {
    var all := keys + more;
    forall i, j | 0 <= i < j < |all|
      ensures all[i] < all[j]
    {
      if i < |keys| <= j {
        assert all[i] in keys && all[j] in more;
      }
    }
  }

  /** The first entry of a listing is the first child with keys, and the rest lists the children behind it. */
  lemma {:induction false} HeadOfListing(files: map<uint64, nat>, n: nat, first: int, keep: string -> bool,
                                         b: nat) returns (c: nat)
    requires n < 8 && b <= 0x100 && forall name :: keep(name)
    ensures b <= c <= 0x100 && (forall d :: b <= d < c ==> !Exists(files, n, first, d))
    ensures Listing(files, n, first, keep, b) == [] <==> c == 0x100
    ensures c < 0x100 ==> Exists(files, n, first, c)
    ensures c < 0x100 ==>
      Listing(files, n, first, keep, b) == [EntryOf(files, n, first, c)] + Listing(files, n, first, keep, c + 1)
    decreases 0x100 - b
  {
    hide Exists, EntryOf, ByteName;
    if b == 0x100 || Exists(files, n, first, b) {
      c := b;
    } else {
      c := HeadOfListing(files, n, first, keep, b + 1);
      assert Listing(files, n, first, keep, b) == Listing(files, n, first, keep, b + 1);
    }
  }

  /** Between children that do not exist there are no keys. */
  lemma {:induction false} NoKeysBetween(files: map<uint64, nat>, n: nat, first: int, b: nat, c: nat)
    requires n < 8 && b <= c <= 0x100 && forall d :: b <= d < c ==> !Exists(files, n, first, d)
    ensures forall k :: k in files ==> !(first + b * Width(n + 1) <= k < first + c * Width(n + 1))
    decreases c - b
  {
    hide Width;
    if b < c {
      NoKeysBetween(files, n, first, b + 1, c);
      OneMore(Width(n + 1), b);
      assert !Exists(files, n, first, b);
    }
  }

  /** Descends from a directory, with one uninterrupted scan of each directory on the way. */
  method Descend(files: map<uint64, nat>, path: string, ghost n: nat, ghost first: int, isRootName: string -> bool)
    returns (leaves: seq<int>)
    requires isRootName("by-id") && n <= 8 && IsInterval(n, first, first + Width(n) - 1)
    requires path == Join(NamesFor(first, n)) && (n == 8 ==> first in files)
    ensures AllKeys(files, first, first + Width(n) - 1, leaves)
    decreases 8 - n, 1
  {
    hide ParseNames, Split, Strip, Join, NamesFor, Listing, Floor, Width, Exists, At;
    var ok, firstID, lastID := ParseByIDName(path, isRootName);
    PathRoundTrip(first, n, isRootName);
    FloorOfInterval(n, first, first + Width(n) - 1);
    LeafWidth(n);
    if firstID == lastID {
      leaves := [firstID];
    } else {
      var e := new DirectoryEnumeration(firstID, lastID, n);
      var entries;
      ghost var next;
      ok, entries, next := GetDirectoryEnumeration(e, files, (name, pattern) => true, false, "", 0x100, Child(0));
      ghost var keep := Keeps(e.Pattern(), (name, pattern) => true);
      WholeScan(files, n, first, lastID, keep, 0x100);
      leaves := DescendInto(files, path, entries, n, first, isRootName, keep);
    }
  }

  lemma LeafWidth(n: nat)
    requires n <= 8
    ensures Width(n) == 1 <==> n == 8
  {
    if n < 8 {
      WidthOf(n);
    } else {
      Widths();
    }
  }

  /** Descends into each entry of a listing in turn. */
  method DescendInto(files: map<uint64, nat>, path: string, entries: seq<Entry>, ghost n: nat, ghost first: int,
                     isRootName: string -> bool, ghost keep: string -> bool)
    returns (leaves: seq<int>)
    requires isRootName("by-id") && n < 8 && IsInterval(n, first, first + Width(n) - 1)
    requires path == Join(NamesFor(first, n))
    requires (forall name :: keep(name)) && entries == Listing(files, n, first, keep, 0)
    ensures AllKeys(files, first, first + Width(n) - 1, leaves)
    decreases 8 - n, 0
  {
    hide Listing, Exists, EntryOf, Join, NamesFor, ByteName, Width, AllKeys, IsInterval, ParseNames, Split, Strip;
    hide ChildStart;
    ghost var last := first + Width(n) - 1;
    leaves := [];
    var i := 0;
    ghost var b := 0;
    NoKeysYet(files, first);
    ChildStarts(n, first, 0);
    while i < |entries|
      invariant 0 <= i <= |entries| && b <= 0x100
      invariant entries[i..] == Listing(files, n, first, keep, b)
      invariant AllKeys(files, first, ChildStart(n, first, b) - 1, leaves)
    {
      ghost var c := NextEntry(files, n, first, keep, b, entries, i);
      ghost var childFirst := ChildStart(n, first, c);
      SkippedKeys(files, n, first, b, c, leaves);
      ChildPath(n, first, last, c, isRootName);
      ChildEntry(files, n, first, c);
      var more := Descend(files, path + [SEPARATOR] + entries[i].name, n + 1, childFirst, isRootName);
      ChildStarts(n, first, c);
      AllKeysJoin(files, first, childFirst, childFirst + Width(n + 1) - 1, leaves, more);
      leaves := leaves + more;
      b := c + 1;
      i := i + 1;
    }
    ghost var c := HeadOfListing(files, n, first, keep, b);
    SkippedKeys(files, n, first, b, c, leaves);
  }

  lemma NoKeysYet(files: map<uint64, nat>, first: int)
    ensures AllKeys(files, first, first - 1, [])
  {
  }

  /** The child that the next entry of a listing stands for. */
  lemma {:induction false} NextEntry(files: map<uint64, nat>, n: nat, first: int, keep: string -> bool, b: nat,
                                     entries: seq<Entry>, i: nat) returns (c: nat)
    requires n < 8 && b <= 0x100 && i < |entries| && (forall name :: keep(name))
    requires entries[i..] == Listing(files, n, first, keep, b)
    ensures b <= c < 0x100 && Exists(files, n, first, c) && (forall d :: b <= d < c ==> !Exists(files, n, first, d))
    ensures entries[i] == EntryOf(files, n, first, c) && entries[i + 1..] == Listing(files, n, first, keep, c + 1)
  {
    hide Listing, Exists, EntryOf;
    c := HeadOfListing(files, n, first, keep, b);
    SameHead(entries[i..], EntryOf(files, n, first, c), Listing(files, n, first, keep, c + 1));
    assert entries[i..][0] == entries[i] && entries[i..][1..] == entries[i + 1..];
  }

  lemma SameHead<T>(s: seq<T>, head: T, tail: seq<T>)
    ensures s == [head] + tail ==> s[0] == head && s[1..] == tail
  {
  }

  /** What a listed entry is called, and at the last level the key it stands for. */
  lemma ChildEntry(files: map<uint64, nat>, n: nat, first: int, c: byte)
    requires n < 8 && Exists(files, n, first, c)
    ensures EntryOf(files, n, first, c).name == ByteName(c)
    ensures n == 7 ==> ChildStart(n, first, c) in files
  {
    if n == 7 {
      Widths();
    }
  }

  lemma {:induction false} SkippedKeys(files: map<uint64, nat>, n: nat, first: int, b: nat, c: nat, keys: seq<int>)
    requires n < 8 && b <= c <= 0x100 && (forall d :: b <= d < c ==> !Exists(files, n, first, d))
    requires AllKeys(files, first, ChildStart(n, first, b) - 1, keys)
    ensures AllKeys(files, first, ChildStart(n, first, c) - 1, keys)
    ensures first <= ChildStart(n, first, b) <= ChildStart(n, first, c)
  {
    hide Width, Exists;
    NoKeysBetween(files, n, first, b, c);
    ProductMonotone(Width(n + 1), b, c);
    ProductMonotone(Width(n + 1), 0, b);
    assert b * Width(n + 1) == Width(n + 1) * b && c * Width(n + 1) == Width(n + 1) * c;
  }

  /** From the root of the by-id tree, the leaves are exactly the keys of all files. */
  method DescendFromRoot(files: map<uint64, nat>, isRootName: string -> bool) returns (leaves: seq<int>)
    requires isRootName("by-id")
    ensures forall i, j :: 0 <= i < j < |leaves| ==> leaves[i] < leaves[j]
    ensures forall k :: k in leaves <==> 0 <= k < TWO64 && k in files
  {
    Widths();
    RootName(0);
    leaves := Descend(files, "\\by-id", 0, 0, isRootName);
  }
}
