/** The tree of named types that the def compiler builds, and `nestTypes`, which builds it. */
module TypeTree {
  import opened Bytes
  import opened Directives
  import opened Names

  datatype Type = Type(data: Directive, nestedTypes: map<string, Type>)

  type Collection = map<string, Type>

  /** The type at a path. */
  function Find(types: Collection, p: Path): Option<Type>
    requires p != []
    decreases |p|
  {
    if p[0] !in types then None
    else if |p| == 1 then Some(types[p[0]])
    else Find(types[p[0]].nestedTypes, p[1..])
  }

  ghost function DataAt(types: Collection, p: Path): Option<Directive>
    requires p != []
  {
    match Find(types, p) case None => None case Some(t) => Some(t.data)
  }

  /** The collection with `t` emplaced among the nested types of the type at `parent`. */
  function Insert(types: Collection, parent: Path, name: string, t: Type): Collection
    requires parent != [] && Find(types, parent).Some?
    decreases |parent|
  {
    var outer := types[parent[0]];
    var nested := if |parent| ==
      1 then outer.nestedTypes[name := t] else Insert(outer.nestedTypes, parent[1..], name, t);
    types[parent[0] := outer.(nestedTypes := nested)]
  }

  /** Insertion puts `t` where it belongs and leaves every other type where it was. */
  lemma {:induction false} FindAfterInsert(types: Collection, parent: Path, name: string, t: Type, q: Path)
    requires parent != [] && Find(types, parent).Some? && q != [] && t.nestedTypes == map[]
    ensures parent + [name] <= q ==>
      DataAt(Insert(types, parent, name, t), q) == if q == parent + [name] then Some(t.data) else None
    ensures !(parent + [name] <= q) ==> DataAt(Insert(types, parent, name, t), q) == DataAt(types, q)
    decreases |parent|
  {
    var r := Insert(types, parent, name, t);
    var full := parent + [name];
    if q[0] == parent[0] && |q| > 1 {
      var outer := types[parent[0]];
      assert Find(r, q) == Find(r[q[0]].nestedTypes, q[1..]);
      assert full <= q <==> full[1..] <= q[1..];
      if |parent| == 1 {
        assert full[1..] == [name] && q[1..][0] == q[1];
        assert full <= q <==> q[1] == name;
        if q[1] == name {
          if |q| > 2 {
            assert Find(t.nestedTypes, q[1..][1..]) == None;
          } else {
            assert q == full;
          }
        } else {
          FindOtherRoot(outer.nestedTypes, name, t, q[1..]);
          assert Find(types, q) == Find(outer.nestedTypes, q[1..]);
        }
      } else {
        FindAfterInsert(outer.nestedTypes, parent[1..], name, t, q[1..]);
        assert full[1..] == parent[1..] + [name];
      }
    }
  }

  /** Types at other roots do not matter. */
  lemma {:induction false} FindOtherRoot(types: Collection, root: string, t: Type, q: Path)
    requires q != [] && q[0] != root
    ensures Find(types[root := t], q) == Find(types, q) == Find(types - {root}, q)
  {
  }

  lemma {:induction false} FindPrefix(types: Collection, p: Path, q: Path)
    requires p != [] && p <= q && Find(types, q).Some?
    ensures Find(types, p).Some?
    decreases |p|
  {
    if |p| > 1 {
      FindPrefix(types[p[0]].nestedTypes, p[1..], q[1..]);
    }
  }

  // ---- what nesting must achieve ----

  /** Every name with an underscore has the name before its last underscore for a parent. */
  ghost predicate ParentsExist(names: set<string>) {
    forall n :: n in names && '_' in n ==> Parent(n) in names
  }

  /** Where a name is found once the names in `moved` have been nested. */
  ghost function PlaceOf(name: string, moved: set<string>): (p: Path)
    ensures p != []
  {
    if name in moved then NestedPath(name) else [name]
  }

  /** The tree holds exactly the original directives, each at its place. */
  ghost predicate Holds(types: Collection, original: map<string, Directive>, moved: set<string>) {
    && moved <= original.Keys && (forall n :: n in moved ==> '_' in n)
    && (forall n :: n in original ==> DataAt(types, PlaceOf(n, moved)) == Some(original[n]))
    && (forall p: Path :: p != [] && DataAt(types, p).Some? ==> exists n :: n in original && p == PlaceOf(n, moved))
  }

  /** Different names have different places throughout. */
  lemma {:induction false} PlacesDiffer(m: string, n: string, moved: set<string>)
    requires forall k :: k in moved ==> '_' in k
    requires PlaceOf(m, moved) == PlaceOf(n, moved)
    ensures m == n
  {
    ComposeNestedPath(m);
    ComposeNestedPath(n);
  }

  lemma {:induction false} NotAPlace(n: string, moved: set<string>, name: string, x: string)
    requires '_' in name
    ensures PlaceOf(n, moved) != [name, x]
  {
    assert [name, x][0] == name;
  }

  /** A name with an underscore that is still at the root has nothing nested in it. */
  lemma {:induction false} NothingNestedYet(types: Collection, original: map<string, Directive>, moved: set<string>,
                                            name: string)
    requires Holds(types, original, moved) && name in types && '_' in name
    ensures types[name].nestedTypes == map[]
  {
    forall x: string
      ensures x !in types[name].nestedTypes
    {
      var p := [name, x];
      assert p[1..] == [x];
      forall n
        ensures PlaceOf(n, moved) != p
      {
        NotAPlace(n, moved, name, x);
      }
      assert !DataAt(types, p).Some?;
      assert Find(types, p) == Find(types[name].nestedTypes, [x]);
    }
  }

  /** Looking a parent up by its place finds it exactly when it is an original name. */
  lemma {:induction false} FindParent(types: Collection, original: map<string, Directive>, moved: set<string>,
                                      parent: string)
    requires Holds(types, original, moved)
    ensures Find(types, PlaceOf(parent, moved)).Some? <==> parent in original
  {
    var p := PlaceOf(parent, moved);
    if DataAt(types, p).Some? {
      var n :| n in original && p == PlaceOf(n, moved);
      PlacesDiffer(parent, n, moved);
    }
  }

  /** What a move does to each path: the moved name appears at its nested place, and its root entry goes. */
  lemma {:induction false} AfterMove(types: Collection, parent: Path, local: string, name: string, q: Path)
    requires parent != [] && Find(types, parent).Some? && Find(types, parent + [local]) == None
    requires name in types && types[name].nestedTypes == map[] && q != []
    ensures DataAt(Insert(types, parent, local, types[name]) - {name}, q) ==
      if q[0] == name then None else if q == parent + [local] then Some(types[name].data) else DataAt(types, q)
  {
    hide Insert;
    var full, t := parent + [local], types[name];
    var r := Insert(types, parent, local, t);
    if q[0] != name {
      FindOtherRoot(r, name, t, q);
      FindAfterInsert(types, parent, local, t, q);
      if full <= q && DataAt(types, q).Some? {
        FindPrefix(types, full, q);
      }
    }
  }

  /** Moving one name changes no other place. */
  lemma {:induction false} PlacesAfterMove(moved: set<string>, name: string, n: string)
    requires '_' in name && name !in moved
    ensures PlaceOf(name, moved + {name}) == NestedPath(name)
    ensures PlaceOf(n, moved + {name})[0] != name
    ensures n != name ==> PlaceOf(n, moved + {name}) == PlaceOf(n, moved) && PlaceOf(n, moved) != NestedPath(name)
  {
    NotItsPlaceYet(n, moved, name);
    assert '_' in name && '_' !in NestedPath(n)[0];
  }

  /** Moving one name under its parent keeps every directive at its place. */
  lemma {:induction false} MoveKeeps(types: Collection, original: map<string, Directive>, moved: set<string>,
                                     name: string)
    requires Holds(types, original, moved) && name in original && '_' in name && name !in moved
    requires name in types && types[name].nestedTypes == map[] && types[name].data == original[name]
    requires Find(types, NestedPath(Parent(name))).Some?
    ensures Holds(Insert(types, NestedPath(Parent(name)), NameInParent(name), types[name]) - {name}, original,
      moved + {name})
  {
    hide Insert, Find, NestedPath, PlaceOf, DataAt;
    var parent := NestedPath(Parent(name));
    var local := NameInParent(name);
    var r := Insert(types, parent, local, types[name]) - {name};
    assert NestedPath(name) == parent + [local] by { NestedPathStep(name); }
    NotThereYet(types, original, moved, name);
    forall n | n in original
      ensures DataAt(r, PlaceOf(n, moved + {name})) == Some(original[n])
    {
      PlaceKept(types, original, moved, name, n);
      AfterMove(types, parent, local, name, PlaceOf(n, moved + {name}));
    }
    forall p: Path | p != [] && DataAt(r, p).Some?
      ensures exists n :: n in original && p == PlaceOf(n, moved + {name})
    {
      AfterMove(types, parent, local, name, p);
      var n := SomePlace(types, original, moved, name, p);
    }
  }

  /** Each directive but the moved one is where it was, and not where that one goes. */
  lemma {:induction false} PlaceKept(types: Collection, original: map<string, Directive>, moved: set<string>,
                                     name: string, n: string)
    requires Holds(types, original, moved) && name in original && '_' in name && name !in moved && n in original
    ensures var p := PlaceOf(n, moved + {name});
      && p != [] && p[0] != name
      && if n == name then p == NestedPath(name)
         else p != NestedPath(name) && DataAt(types, p) == Some(original[n])
  {
    hide DataAt, NestedPath, PlaceOf;
    PlacesAfterMove(moved, name, n);
  }

  /** What is at a path after a move has its place there. */
  lemma {:induction false} SomePlace(types: Collection, original: map<string, Directive>, moved: set<string>,
                                     name: string, p: Path) returns (n: string)
    requires Holds(types, original, moved) && name in original && '_' in name && name !in moved
    requires p != [] && p[0] != name && (p == NestedPath(name) || DataAt(types, p).Some?)
    ensures n in original && p == PlaceOf(n, moved + {name})
  {
    hide DataAt, NestedPath, PlaceOf;
    PlacesAfterMove(moved, name, name);
    n := name;
    if p != NestedPath(name) {
      n :| n in original && p == PlaceOf(n, moved);
      PlacesAfterMove(moved, name, n);
      RootPlace(name, moved);
    }
  }

  lemma {:induction false} NestedPathStep(name: string)
    requires '_' in name
    ensures NestedPath(name) == NestedPath(Parent(name)) + [NameInParent(name)]
  {
  }

  lemma {:induction false} RootPlace(name: string, moved: set<string>)
    requires name !in moved
    ensures PlaceOf(name, moved) == [name]
  {
  }

  lemma {:induction false} NotItsPlaceYet(n: string, moved: set<string>, name: string)
    requires '_' in name && name !in moved
    ensures PlaceOf(n, moved) != NestedPath(name)
  {
    ComposeNestedPath(n);
    ComposeNestedPath(name);
  }

  lemma {:induction false} NotThereYet(types: Collection, original: map<string, Directive>, moved: set<string>,
                                       name: string)
    requires Holds(types, original, moved) && '_' in name && name !in moved
    ensures Find(types, NestedPath(name)) == None
  {
    forall n
      ensures PlaceOf(n, moved) != NestedPath(name)
    {
      NotItsPlaceYet(n, moved, name);
    }
    assert !DataAt(types, NestedPath(name)).Some?;
  }

  lemma {:induction false} FindInFlat(types: Collection, p: Path)
    requires p != [] && forall n :: n in types ==> types[n].nestedTypes == map[]
    ensures Find(types, p).Some? ==> |p| == 1
  {
    if |p| > 1 && p[0] in types {
      assert Find(types, p) == Find(map[], p[1..]) == None;
    }
  }

  lemma {:induction false} InitiallyAtRoot(original: map<string, Directive>)
    ensures Holds(map n | n in original :: Type(original[n], map[]), original, {})
  {
    var types: Collection := map n | n in original :: Type(original[n], map[]);
    forall p: Path | p != [] && DataAt(types, p).Some?
      ensures exists n :: n in original && p == PlaceOf(n, {})
    {
      FindInFlat(types, p);
      assert p == PlaceOf(p[0], {});
    }
  }

  lemma {:induction false} RootsAfterMove(types: Collection, parent: Path, local: string, t: Type, name: string)
    requires parent != [] && Find(types, parent).Some?
    ensures (Insert(types, parent, local, t) - {name}).Keys == types.Keys - {name}
  {
  }

  /** The names that have been nested are exactly those before the cursor. */
  ghost predicate VisitedBefore(names: set<string>, moved: set<string>, it: Option<string>) {
    forall n :: n in names && '_' in n ==> (n in moved <==> it == None || Less(n, it.value))
  }

  lemma {:induction false} NothingVisited(names: set<string>, it: Option<string>)
    requires it == Begin(names)
    ensures VisitedBefore(names, {}, it)
  {
    forall n | n in names && '_' in n
      ensures !(it == None || Less(n, it.value))
    {
      NothingBefore(names, it.value, n);
    }
  }

  /** With the cursor moved on, the nested names are again exactly those before it. */
  lemma {:induction false} VisitedInOrder(names: set<string>, before: set<string>, moved: set<string>, name: string,
                                          next: Option<string>)
    requires name in names && before <= names && moved == if '_' in name then before + {name} else before
    requires VisitedBefore(names, before, Some(name))
    requires next == After(names - moved, name)
    ensures VisitedBefore(names, moved, next)
  {
    forall n | n in names && '_' in n
      ensures n in moved <==> next == None || Less(n, next.value)
    {
      LessTotal(n, name);
      if n in moved {
        if next.Some? && n != name {
          LessTransitive(n, name, next.value);
        }
      } else {
        assert Less(name, n) && n in names - moved;
        if next.Some? && n != next.value && Less(n, next.value) {
          LessTransitive(n, next.value, n);
          LessIrreflexive(n);
        }
        LessIrreflexive(n);
      }
    }
  }

  /** The names from the cursor on. */
  ghost function ToVisit(names: set<string>, it: Option<string>): set<string> {
    set n | n in names && it.Some? && !Less(n, it.value)
  }

  lemma {:induction false} FewerToVisit(before: set<string>, names: set<string>, name: string, next: Option<string>)
    requires names <= before && name in before && next == After(names, name)
    ensures ToVisit(names, next) < ToVisit(before, Some(name))
  {
    LessIrreflexive(name);
    forall n | n in ToVisit(names, next)
      ensures n in ToVisit(before, Some(name)) && n != name
    {
      if Less(n, name) {
        LessTransitive(n, name, next.value);
      }
    }
    assert name in ToVisit(before, Some(name)) && name !in ToVisit(names, next);
  }

  /** When the cursor is past the end, every name is at its nested place. */
  lemma {:induction false} AllMoved(original: map<string, Directive>, moved: set<string>, n: string)
    requires VisitedBefore(original.Keys, moved, None)
    requires moved <= original.Keys && (forall k :: k in moved ==> '_' in k) && n in original
    ensures PlaceOf(n, moved) == NestedPath(n)
  {
  }

  lemma {:induction false} PlaceOfParent(parent: string, moved: set<string>)
    requires ('_' in parent ==> parent in moved) && (forall k :: k in moved ==> '_' in k)
    ensures PlaceOf(parent, moved) == NestedPath(parent)
  {
  }

  lemma {:induction false} NestedPathOfRoot(name: string)
    ensures '_' !in name ==> NestedPath(name) == [name]
  {
  }

  lemma {:induction false} StillAtRoot(types: Collection, original: map<string, Directive>, moved: set<string>,
                                       name: string)
    requires Holds(types, original, moved) && name in original && name !in moved && name in types
    ensures types[name].data == original[name]
  {
    assert PlaceOf(name, moved) == [name];
  }

  /** Part way through: the names in `moved` have been nested, the others are still at the root. */
  ghost predicate NestingOf(types: Collection, renames: map<string, Path>, original: map<string, Directive>,
                            moved: set<string>) {
    && Holds(types, original, moved) && types.Keys == original.Keys - moved
    && moved <= original.Keys && (forall n :: n in moved ==> '_' in n)
    && renames == (map n | n in moved :: NestedPath(n))
    && (forall n :: n in moved ==> Parent(n) in original)
  }

  /** Nesting one more name. */
  lemma {:induction false} NestOneMore(types: Collection, renames: map<string, Path>, original: map<string,
                                       Directive>, moved: set<string>,
                                       name: string, nesting: Path)
    requires NestingOf(types, renames, original, moved) && name in types && '_' in name && Parent(name) in original
    requires nesting == NestedPath(Parent(name)) && Find(types, nesting).Some?
    ensures NestingOf(Insert(types, nesting, NameInParent(name), types[name]) - {name},
                      renames[name := nesting + [NameInParent(name)]], original, moved + {name})
  {
    hide Insert, DataAt, Find, NestedPath, Holds, PlaceOf;
    StillAtRoot(types, original, moved, name);
    NothingNestedYet(types, original, moved, name);
    MoveKeeps(types, original, moved, name);
    NestedPathStep(name);
    RootsAfterMove(types, nesting, NameInParent(name), types[name], name);
  }

  // ---- the compiler's state and `nestTypes` ----

  class TypeCollection {
    var types: Collection
    var renames: map<string, Path>

    /** `insertTypes`: everything at the root, under its own name. */
    constructor (original: map<string, Directive>)
      ensures types == map n | n in original :: Type(original[n], map[])
      ensures renames == map[]
    {
      types := map n | n in original :: Type(original[n], map[]);
      renames := map[];
    }

    /** The path a name stands for: renamed if it has been nested. */
    function PathOf(name: string): Path
      reads this
    {
      if name in renames then renames[name] else [name]
    }

    /** `findTypeByName`: walks the path, a collection at a time; `None` where the program throws. */
    method FindTypeByName(name: string) returns (nesting: Path, found: Option<Type>)
      requires PathOf(name) != []
      ensures nesting == PathOf(name) && found == Find(types, nesting)
    {
      nesting := PathOf(name);
      var collection := types;
      var i := 0;
      found := None;
      while i < |nesting|
        invariant 0 <= i <= |nesting|
        invariant i < |nesting| ==> Find(types, nesting) == Find(collection, nesting[i..])
        invariant i == |nesting| ==> found == Find(types, nesting)
      {
        if nesting[i] !in collection {
          return nesting, None;
        }
        found := Some(collection[nesting[i]]);
        collection := collection[nesting[i]].nestedTypes;
        assert nesting[i..][1..] == nesting[i + 1..];
        i := i + 1;
      }
    }

    ghost predicate Nesting(original: map<string, Directive>, moved: set<string>)
      reads this
    {
      NestingOf(types, renames, original, moved)
    }

    lemma {:induction false} PathIsPlace(original: map<string, Directive>, moved: set<string>, name: string)
      requires Nesting(original, moved)
      ensures PathOf(name) == PlaceOf(name, moved)
    {
    }

    /** One turn of the loop of `nestTypes` for a name with an underscore; false where the program throws. */
    method Nest(name: string, ghost original: map<string, Directive>, ghost moved: set<string>) returns (ok: bool)
      requires Nesting(original, moved) && name in types && '_' in name
      requires Parent(name) in original && '_' in Parent(name) ==> Parent(name) in moved
      modifies this
      ensures ok <==> Parent(name) in original
      ensures ok ==> Nesting(original, moved + {name})
    {
      hide Insert, DataAt, Find, NestedPath, Holds, PlaceOf, PathOf;
      var parent, local := Parent(name), NameInParent(name);
      PathIsPlace(original, moved, parent);
      var nesting, parentType := FindTypeByName(parent);
      FindParent(types, original, moved, parent);
      if parentType == None {
        return false;
      }
      PlaceOfParent(parent, moved);
      NestOneMore(types, renames, original, moved, name, nesting);
      renames := renames[name := nesting + [local]];
      types := Insert(types, nesting, local, types[name]) - {name};
      ok := true;
    }

    lemma {:induction false} AllNested(original: map<string, Directive>, moved: set<string>)
      requires Nesting(original, moved) && VisitedBefore(original.Keys, moved, None)
      ensures ParentsExist(original.Keys) && Nested(original)
    {
      hide NestedPath, Find, DataAt, PlaceOf;
      forall n | n in original
        ensures PathOf(n) == NestedPath(n) == PlaceOf(n, moved)
      {
        AllMoved(original, moved, n);
        NestedPathOfRoot(n);
      }
    }

    /** `nestTypes`: visits the names in map order while it erases and emplaces; false where the program
        throws.  Either some parent is missing, or every directive ends up where its name says, and
        nothing else is in the tree. */
    method NestTypes(ghost original: map<string, Directive>) returns (ok: bool)
      requires types == map n | n in original :: Type(original[n], map[])
      requires renames == map[]
      modifies this
      ensures ok <==> ParentsExist(original.Keys)
      ensures ok ==> Nested(original)
    {
      hide Insert, Find, DataAt, NestedPath, Holds;
      ghost var moved: set<string> := {};
      InitiallyAtRoot(original);
      var it := Begin(types.Keys);
      assert types.Keys == original.Keys;
      NothingVisited(original.Keys, it);
      while it.Some?
        invariant Nesting(original, moved) && moved <= original.Keys
        invariant it.Some? ==> it.value in types
        invariant VisitedBefore(original.Keys, moved, it)
        decreases ToVisit(types.Keys, it)
      {
        var name := it.value;
        ghost var earlier, left := moved, ToVisit(types.Keys, it);
        LessIrreflexive(name);
        if '_' in name {
          PrefixLess(Parent(name), name);
          var nested := Nest(name, original, moved);
          if !nested {
            return false;
          }
          moved := moved + {name};
        }
        it := After(types.Keys, name);
        VisitedInOrder(original.Keys, earlier, moved, name, it);
        FewerToVisit(original.Keys - earlier, types.Keys, name, it);
      }
      AllNested(original, moved);
      ok := true;
    }

    /** Every original directive is where its name says, nothing else is in the tree, no root name has an
        underscore, and each name leads to its directive. */
    ghost predicate Nested(original: map<string, Directive>)
      reads this
    {
      && (forall n :: n !in original ==> PathOf(n) == [n])
      && (forall n :: n in original ==> PathOf(n) == NestedPath(n) && DataAt(types, PathOf(n)) == Some(original[n]))
      && (forall p: Path :: p != [] && DataAt(types, p).Some? ==> exists n :: n in original && p == NestedPath(n))
      && (forall k :: k in types ==> '_' !in k)
    }
  }
}
