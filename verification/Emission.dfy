/** The order in which the def compiler writes type definitions. */
module Emission {
  import opened Bytes
  import opened Dependencies
  import opened Directives
  import opened Names
  import opened TypeTree

  /** What goes to the header: a type's heading, its fields or values, and its closing brace. */
  datatype Event = Open(path: Path) | Fields(path: Path) | Close(path: Path)

  /** What generation reads and no longer changes. */
  datatype Plan = Plan(types: Collection, renames: map<string, Path>, edges: Edges) {
    function PathOf(name: string): Path {
      if name in renames then renames[name] else [name]
    }

    /** Whether `getCxxNameFor` finds a name. */
    predicate Resolves(name: string) {
      PathOf(name) != [] && Find(types, PathOf(name)).Some?
    }

    /** Whether every type that the fields of a directive name can be written. */
    predicate Writable(d: Directive) {
      match d
      case StructureType(fields) => forall f :: f in fields ==> WritableField(f)
      case DefType(_, _, fields) => forall f :: f in fields ==> WritableField(f)
      case EnumType(_, _) => true
      case DefAliasType(_, target) => Resolves(target)
    }

    predicate WritableField(f: Field) {
      NamesType(if f.fieldType == Array then f.arrayType else f.fieldType) ==> Resolves(f.typeName)
    }

    /** Every edge is between two types of its level. */
    ghost predicate Closed() {
      forall l, a, b :: Edge(edges, l, a, b) ==>
        IsLevel(types, l) && a in CollectionAt(types, l) && b in CollectionAt(types, l)
    }

    /** No level has a cycle. */
    ghost predicate Valid() {
      Closed() && forall l :: Acyclic(EdgesAt(edges, l))
    }

    /** The calls that `generateTypes` makes for the types of a level return, however deep they nest. */
    ghost predicate LevelReturns(level: Path)
      requires IsLevel(types, level)
    {
      exists depth: nat :: AllReturn(EdgesAt(edges, level), CollectionAt(types, level).Keys, depth)
    }
  }

  predicate NamesType(t: FieldType) {
    t in {Enum, ForeignKey, Struct, PolymorphicReference}
  }

  // ---- acyclic dependencies ----

  ghost predicate IsWalk(dependencies: map<string, seq<string>>, w: seq<string>) {
    w != [] && forall i :: 0 <= i < |w| - 1 ==> w[i] in dependencies && w[i + 1] in dependencies[w[i]]
  }

  /** No walk returns to where it started. */
  ghost predicate Acyclic(dependencies: map<string, seq<string>>) {
    forall w :: IsWalk(dependencies, w) && |w| > 1 ==> w[0] != w[|w| - 1]
  }

  lemma WalkVisitsOnce(dependencies: map<string, seq<string>>, w: seq<string>, i: nat, j: nat)
    requires Acyclic(dependencies) && IsWalk(dependencies, w) && i < j < |w|
    ensures w[i] != w[j]
  {
    var part := w[i..j + 1];
    assert forall k | 0 <= k < |part| :: part[k] == w[i + k];
    assert IsWalk(dependencies, part);
  }

  lemma {:induction false} DistinctInSet(w: seq<string>, s: set<string>)
    requires forall i, j :: 0 <= i < j < |w| ==> w[i] != w[j]
    requires forall i :: 0 <= i < |w| ==> w[i] in s
    ensures |w| <= |s|
    decreases |w|
  {
    if w != [] {
      var last := w[|w| - 1];
      DistinctInSet(w[..|w| - 1], s - {last});
    }
  }

  lemma WalkBounded(dependencies: map<string, seq<string>>, w: seq<string>, names: set<string>)
    requires Acyclic(dependencies) && IsWalk(dependencies, w)
    requires forall i :: 0 <= i < |w| ==> w[i] in names
    ensures |w| <= |names|
  {
    forall i: nat, j: nat | i < j < |w|
      ensures w[i] != w[j]
    {
      WalkVisitsOnce(dependencies, w, i, j);
    }
    DistinctInSet(w, names);
  }

  lemma WalkExtends(dependencies: map<string, seq<string>>, w: seq<string>, to: string)
    requires IsWalk(dependencies, w) && w[|w| - 1] in dependencies && to in dependencies[w[|w| - 1]]
    ensures IsWalk(dependencies, w + [to])
  {
  }

  // ---- calls that return ----

  /** Whether `generateType` for `name` returns without more than `depth` of its calls open at once: it calls
      itself for everything that the type depends on, visited or not, before it looks whether the type has
      been visited. */
  ghost predicate Returns(dependencies: map<string, seq<string>>, name: string, depth: nat)
    decreases depth
  {
    && depth > 0
    && forall to :: DependsOn(dependencies, name, to) ==> Returns(dependencies, to, depth - 1)
  }

  ghost predicate AllReturn(dependencies: map<string, seq<string>>, names: set<string>, depth: nat) {
    forall name :: name in names ==> Returns(dependencies, name, depth)
  }

  ghost predicate DependsOn(dependencies: map<string, seq<string>>, a: string, b: string) {
    a in dependencies && b in dependencies[a]
  }

  ghost predicate Within(dependencies: map<string, seq<string>>, names: set<string>) {
    forall a, b :: DependsOn(dependencies, a, b) ==> a in names && b in names
  }

  lemma {:induction false} ReturnsAfter(dependencies: map<string, seq<string>>, names: set<string>, w: seq<string>)
    requires Acyclic(dependencies) && Within(dependencies, names) && IsWalk(dependencies, w)
    requires w != [] && forall n :: n in w ==> n in names
    ensures |w| <= |names| && Returns(dependencies, w[|w| - 1], |names| - |w| + 1)
    decreases |names| - |w|
  {
    hide Acyclic, IsWalk;
    WalkBounded(dependencies, w, names);
    var name := w[|w| - 1];
    forall to | DependsOn(dependencies, name, to)
      ensures |w| < |names| && Returns(dependencies, to, |names| - |w|)
    {
      WalkExtends(dependencies, w, to);
      WalkBounded(dependencies, w + [to], names);
      ReturnsAfter(dependencies, names, w + [to]);
    }
  }

  /** As many open calls as there are names suffice without cycles. */
  lemma {:induction false} ReturnsWithoutCycles(dependencies: map<string, seq<string>>, names: set<string>)
    requires Acyclic(dependencies) && Within(dependencies, names)
    ensures AllReturn(dependencies, names, |names|)
  {
    hide Acyclic;
    forall name | name in names
      ensures Returns(dependencies, name, |names|)
    {
      ReturnsAfter(dependencies, names, [name]);
    }
  }

  lemma {:induction false} ReturnsAlong(dependencies: map<string, seq<string>>, w: seq<string>, i: nat, depth: nat)
    requires IsWalk(dependencies, w) && i < |w| && Returns(dependencies, w[0], depth)
    ensures i < depth && Returns(dependencies, w[i], depth - i)
  {
    if i > 0 {
      ReturnsAlong(dependencies, w, i - 1, depth);
      assert DependsOn(dependencies, w[i - 1], w[i]);
    }
  }

  /** A call for a type on a cycle is open again before it returns, and so never does. */
  lemma {:induction false} NeverReturns(dependencies: map<string, seq<string>>, w: seq<string>, depth: nat)
    requires IsWalk(dependencies, w) && |w| > 1 && w[0] == w[|w| - 1]
    ensures !Returns(dependencies, w[0], depth)
    decreases depth
  {
    if Returns(dependencies, w[0], depth) {
      ReturnsAlong(dependencies, w, |w| - 1, depth);
      NeverReturns(dependencies, w, depth - (|w| - 1));
    }
  }

  /** The calls for the types of a level all return exactly if its dependencies have no cycle. */
  lemma {:induction false} ReturnIffAcyclic(dependencies: map<string, seq<string>>, names: set<string>)
    requires Within(dependencies, names)
    ensures (exists depth: nat :: AllReturn(dependencies, names, depth)) <==> Acyclic(dependencies)
  {
    if Acyclic(dependencies) {
      hide Acyclic;
      ReturnsWithoutCycles(dependencies, names);
    } else {
      var w :| IsWalk(dependencies, w) && |w| > 1 && w[0] == w[|w| - 1];
      assert DependsOn(dependencies, w[0], w[1]);
      forall depth: nat
        ensures !AllReturn(dependencies, names, depth)
      {
        NeverReturns(dependencies, w, depth);
      }
    }
  }

  // ---- what has been written at a level, type by type ----

  datatype Blocks = Empty | Append(earlier: Blocks, name: string, inner: Blocks)

  /** The types in the order in which they are written. */
  ghost function OrderOf(b: Blocks): seq<string> {
    match b case Empty => [] case Append(earlier, name, _) => OrderOf(earlier) + [name]
  }

  /** The types written at a level behind `done`, when `generateType` is called for `name`: what it depends on,
      in the order of the edges, and then the type itself unless it is among them. */
  ghost function Visit(dependencies: map<string, seq<string>>, name: string, done: seq<string>, depth: nat): seq<string>
    decreases depth, 0
  {
    if depth == 0 then done
    else
      var first := VisitAll(dependencies, DependenciesOf(dependencies, name), done, depth - 1);
      if name in first then first else first + [name]
  }

  ghost function VisitAll(dependencies: map<string, seq<string>>, names: seq<string>, done: seq<string>,
                          depth: nat): seq<string>
    decreases depth, 1, |names|
  {
    if names == [] then done
    else
      var last := |names| - 1;
      Visit(dependencies, names[last], VisitAll(dependencies, names[..last], done, depth), depth)
  }

  function DependenciesOf(dependencies: map<string, seq<string>>, name: string): seq<string> {
    if name in dependencies then dependencies[name] else []
  }

  /** The order of a level: its types are visited in the order of their names. */
  ghost function LevelOrder(plan: Plan, types: Collection, level: Path): seq<string> {
    VisitAll(EdgesAt(plan.edges, level), Sorted(types.Keys), [], |types|)
  }

  lemma {:induction false} NamesWritten(b: Blocks)
    ensures forall name :: name in OrderOf(b) <==> name in Written(b)
  {
    if b.Append? {
      NamesWritten(b.earlier);
    }
  }

  lemma VisitNone(dependencies: map<string, seq<string>>, names: seq<string>, done: seq<string>, depth: nat)
    ensures VisitAll(dependencies, names[..0], done, depth) == done
  {
    assert names[..0] == [];
  }

  lemma OneVisit(dependencies: map<string, seq<string>>, name: string, done: seq<string>, depth: nat)
    requires depth > 0
    ensures var first := VisitAll(dependencies, DependenciesOf(dependencies, name), done, depth - 1);
      Visit(dependencies, name, done, depth) == if name in first then first else first + [name]
  {
  }

  lemma VisitNext(dependencies: map<string, seq<string>>, names: seq<string>, i: nat, done: seq<string>, depth: nat)
    requires i < |names|
    ensures VisitAll(dependencies, names[..i + 1], done, depth) ==
      Visit(dependencies, names[i], VisitAll(dependencies, names[..i], done, depth), depth)
  {
    hide Visit;
    assert names[..i + 1][..i] == names[..i];
  }

  ghost function Written(b: Blocks): set<string> {
    match b case Empty => {} case Append(earlier, name, _) => Written(earlier) + {name}
  }

  ghost function Flatten(level: Path, b: Blocks): seq<Event>
    decreases b
  {
    match b
    case Empty => []
    case Append(earlier, name, inner) =>
      var p := level + [name];
      Flatten(level, earlier) + ([Open(p)] + Flatten(p, inner) + [Fields(p), Close(p)])
  }

  /** Each type is written once, with all its nested types inside it, after everything it depends on. */
  ghost predicate Ordered(plan: Plan, types: Collection, level: Path, b: Blocks)
    decreases b
  {
    match b
    case Empty => true
    case Append(earlier, name, inner) =>
      && Ordered(plan, types, level, earlier) && name in types && name !in Written(earlier)
      && (forall to :: Edge(plan.edges, level, name, to) ==> to in Written(earlier))
      && plan.Writable(types[name].data)
      && Written(inner) == types[name].nestedTypes.Keys
      && OrderOf(inner) == LevelOrder(plan, types[name].nestedTypes, level + [name])
      && Ordered(plan, types[name].nestedTypes, level + [name], inner)
  }

  lemma NothingWritten(plan: Plan, types: Collection, level: Path)
    ensures Ordered(plan, types, level, Empty) && Flatten(level, Empty) == [] && Written(Empty) == {}
    ensures OrderOf(Empty) == []
  {
  }

  lemma {:induction false} AppendOrdered(plan: Plan, types: Collection, level: Path, b: Blocks, name: string,
                                         inner: Blocks)
    requires Ordered(plan, types, level, b) && name in types && name !in Written(b) && plan.Writable(types[name].data)
    requires forall to :: Edge(plan.edges, level, name, to) ==> to in Written(b)
    requires Written(inner) == types[name].nestedTypes.Keys
    requires OrderOf(inner) == LevelOrder(plan, types[name].nestedTypes, level + [name])
    requires Ordered(plan, types[name].nestedTypes, level + [name], inner)
    ensures Ordered(plan, types, level, Append(b, name, inner))
    ensures Written(Append(b, name, inner)) == Written(b) + {name}
    ensures OrderOf(Append(b, name, inner)) == OrderOf(b) + [name]
  {
    hide LevelOrder;
  }

  /** The edges and the order of the names leave no choice: what is written at a level is determined by its
      order, down to the last nested type. */
  lemma {:induction false} OneOrder(plan: Plan, types: Collection, level: Path, a: Blocks, b: Blocks)
    requires Ordered(plan, types, level, a) && Ordered(plan, types, level, b) && OrderOf(a) == OrderOf(b)
    ensures a == b
    decreases a
  {
    hide LevelOrder, Plan.Writable;
    if a.Append? {
      var n := |OrderOf(a)| - 1;
      assert OrderOf(a)[..n] == OrderOf(a.earlier) && OrderOf(b)[..n] == OrderOf(b.earlier);
      assert OrderOf(a)[n] == a.name && OrderOf(b)[n] == b.name;
      OneOrder(plan, types, level, a.earlier, b.earlier);
      OneOrder(plan, types[a.name].nestedTypes, level + [a.name], a.inner, b.inner);
    }
  }

  lemma FlattenAppend(base: seq<Event>, level: Path, b: Blocks, name: string, inner: Blocks)
    ensures base + Flatten(level, b) + [Open(level + [name])] + Flatten(level + [name], inner)
        + [Fields(level + [name]), Close(level + [name])]
      == base + Flatten(level, Append(b, name, inner))
  {
  }

  lemma {:induction false} LevelInside(types: Collection, level: Path, name: string)
    requires IsLevel(types, level) && name in CollectionAt(types, level)
    ensures IsLevel(types, level + [name])
    ensures CollectionAt(types, level + [name]) == CollectionAt(types, level)[name].nestedTypes
  {
    FindBelow(types, level, [name]);
  }

  lemma {:induction false} UnwritableInside(plan: Plan, types: Collection, name: string)
    requires name in types && Unwritable(plan, types[name].nestedTypes)
    ensures Unwritable(plan, types)
  {
    var nested := types[name].nestedTypes;
    var p: Path :| p != [] && Find(nested, p).Some? && !plan.Writable(Find(nested, p).value.data);
    var q := [name] + p;
    assert q[1..] == p;
    assert Find(types, q) == Find(nested, p);
  }

  lemma {:induction false} UnwritableHere(plan: Plan, types: Collection, name: string)
    requires name in types && !plan.Writable(types[name].data)
    ensures Unwritable(plan, types)
  {
    assert Find(types, [name]) == Some(types[name]);
  }

  lemma {:induction false} EdgesWithin(plan: Plan, level: Path, dependencies: map<string, seq<string>>,
                                       types: Collection)
    requires plan.Closed() && IsLevel(plan.types, level)
    requires dependencies == EdgesAt(plan.edges, level) && types == CollectionAt(plan.types, level)
    ensures Within(dependencies, types.Keys)
  {
    hide Acyclic, CollectionAt, IsLevel;
    forall a, b | DependsOn(dependencies, a, b)
      ensures a in types.Keys && b in types.Keys
    {
      assert Edge(plan.edges, level, a, b);
    }
  }

  /** Every call of generation returns, at every level, exactly if no level has a cycle. */
  lemma {:induction false} AllLevelsReturn(plan: Plan)
    requires plan.Closed()
    ensures (forall level :: IsLevel(plan.types, level) ==> plan.LevelReturns(level)) <==> plan.Valid()
  {
    hide Acyclic, Find, CollectionAt, AllReturn, Plan.Closed;
    forall level | IsLevel(plan.types, level)
      ensures plan.LevelReturns(level) <==> Acyclic(EdgesAt(plan.edges, level))
    {
      var dependencies, types := EdgesAt(plan.edges, level), CollectionAt(plan.types, level);
      EdgesWithin(plan, level, dependencies, types);
      ReturnIffAcyclic(dependencies, types.Keys);
    }
    forall level | !IsLevel(plan.types, level)
      ensures Acyclic(EdgesAt(plan.edges, level))
    {
      NoEdgesOutside(plan, level);
    }
  }

  lemma {:induction false} NoEdgesOutside(plan: Plan, level: Path)
    requires plan.Closed() && !IsLevel(plan.types, level)
    ensures Acyclic(EdgesAt(plan.edges, level))
  {
    hide IsLevel, CollectionAt;
    var dependencies := EdgesAt(plan.edges, level);
    forall w: seq<string> | |w| > 1
      ensures !IsWalk(dependencies, w)
    {
      assert !Edge(plan.edges, level, w[0], w[1]);
    }
  }

  class Emitter {
    const plan: Plan
    var currentType: Path
    var events: seq<Event>

    constructor (plan: Plan)
      ensures this.plan == plan && currentType == [] && events == []
    {
      this.plan := plan;
      currentType, events := [], [];
    }

    /** `types` is the collection at the current level. */
    ghost predicate AtLevel(types: Collection, dependencies: map<string, seq<string>>, owner: Type)
      reads this`currentType
    {
      && owner.nestedTypes == types
      && IsLevel(plan.types, currentType) && CollectionAt(plan.types, currentType) == types
      && dependencies == EdgesAt(plan.edges, currentType)
    }

    /** The events since `base` are those of `b`, in order. */
    ghost predicate Progress(types: Collection, base: seq<Event>, b: Blocks)
      reads this
    {
      events == base + Flatten(currentType, b) && Ordered(plan, types, currentType, b)
    }

    /** `generateTypes`; false where the program throws. */
    method GenerateTypes(types: Collection, dependencies: map<string, seq<string>>, ghost owner: Type)
      returns (ok: bool, ghost b: Blocks)
      requires plan.Valid() && AtLevel(types, dependencies, owner)
      modifies this
      ensures currentType == old(currentType)
      ensures ok ==> Progress(types, old(events), b) && Written(b) == types.Keys
      ensures ok ==> OrderOf(b) == LevelOrder(plan, types, currentType)
      ensures !ok ==> Unwritable(plan, types)
      decreases owner, |types| + 1
    {
      hide Unwritable, Find, Acyclic, CollectionAt, IsLevel, Plan.Writable, Less, IsLeast, Ordered, Flatten, Written;
      hide IsWalk, Returns, Visit, VisitAll;
      assert AllReturn(dependencies, types.Keys, |types|) by { TypesReturn(types, dependencies, owner); }
      var names := Sorted(types.Keys);
      VisitNone(dependencies, names, [], |types|);
      var visited: set<string> := {};
      b := Empty;
      var i := 0;
      NothingWritten(plan, types, currentType);
      while i < |names|
        invariant 0 <= i <= |names| && currentType == old(currentType)
        invariant Progress(types, old(events), b) && Written(b) == visited <= types.Keys
        invariant forall n :: n in names[..i] ==> n in visited
        invariant OrderOf(b) == VisitAll(dependencies, names[..i], [], |types|)
      {
        VisitNext(dependencies, names, i, [], |types|);
        ok, visited, b := GenerateType(names[i], types, dependencies, visited, owner, |types|, old(events), b);
        if !ok {
          return;
        }
        i := i + 1;
      }
      assert names[..i] == names;
      ok := true;
    }

    lemma {:induction false} TypesReturn(types: Collection, dependencies: map<string, seq<string>>, owner: Type)
      requires plan.Valid() && AtLevel(types, dependencies, owner)
      ensures AllReturn(dependencies, types.Keys, |types|)
    {
      hide Acyclic, AllReturn, CollectionAt, IsLevel, Within;
      EdgesWithin(plan, currentType, dependencies, types);
      ReturnsWithoutCycles(dependencies, types.Keys);
      assert |types| == |types.Keys|;
    }

    lemma NextReturns(types: Collection, dependencies: map<string, seq<string>>, owner: Type, name: string, depth: nat)
      requires plan.Valid() && AtLevel(types, dependencies, owner) && Returns(dependencies, name, depth)
      ensures forall to :: to in DependenciesOf(dependencies, name) ==>
        to in types && Returns(dependencies, to, depth - 1)
    {
      hide Find, IsLevel, CollectionAt;
      forall to | to in DependenciesOf(dependencies, name)
        ensures to in types && Returns(dependencies, to, depth - 1)
      {
        assert Edge(plan.edges, currentType, name, to);
        assert DependsOn(dependencies, name, to);
      }
    }

    lemma {:induction false} DependenciesWritten(types: Collection, dependencies: map<string, seq<string>>, owner: Type,
                                                 name: string, visited: set<string>)
      requires AtLevel(types, dependencies, owner)
      ensures AtLevel(types, EdgesAt(plan.edges, currentType), owner)
      requires name in dependencies ==> forall n :: n in dependencies[name] ==> n in visited
      ensures forall to :: Edge(plan.edges, currentType, name, to) ==> to in visited
    {
    }

    /** The loop of `generateType` over what the type depends on. */
    method WriteDependencies(names: seq<string>, types: Collection, dependencies: map<string, seq<string>>,
                             visited: set<string>,
                             ghost owner: Type, ghost depth: nat, ghost base: seq<Event>, ghost before: Blocks)
      returns (ok: bool, visitedNow: set<string>, ghost b: Blocks)
      requires plan.Valid() && AtLevel(types, dependencies, owner)
      requires forall n :: n in names ==> n in types && Returns(dependencies, n, depth)
      requires Progress(types, base, before) && Written(before) == visited <= types.Keys
      modifies this
      ensures currentType == old(currentType)
      ensures ok ==> Progress(types, base, b) && Written(b) == visitedNow <= types.Keys && visited <= visitedNow
      ensures ok ==> forall n :: n in names ==> n in visitedNow
      ensures ok ==> OrderOf(b) == VisitAll(dependencies, names, OrderOf(before), depth)
      ensures !ok ==> Unwritable(plan, types)
      decreases owner, depth, 2
    {
      hide Ordered, Flatten, Unwritable, Find, Returns, Plan.Valid, Written, AtLevel, Visit, VisitAll, OrderOf;
      visitedNow, b := visited, before;
      VisitNone(dependencies, names, OrderOf(before), depth);
      var i := 0;
      while i < |names|
        invariant 0 <= i <= |names| && currentType == old(currentType)
        invariant Progress(types, base, b) && Written(b) == visitedNow <= types.Keys && visited <= visitedNow
        invariant forall n :: n in names[..i] ==> n in visitedNow
        invariant OrderOf(b) == VisitAll(dependencies, names[..i], OrderOf(before), depth)
      {
        VisitNext(dependencies, names, i, OrderOf(before), depth);
        ok, visitedNow, b := GenerateType(names[i], types, dependencies, visitedNow, owner, depth, base, b);
        if !ok {
          return;
        }
        i := i + 1;
      }
      assert names[..i] == names;
      ok := true;
    }

    /** `generateType`: what the type depends on first, then the type, unless it has been visited. */
    method GenerateType(name: string, types: Collection, dependencies: map<string, seq<string>>, visited: set<string>,
                        ghost owner: Type, ghost depth: nat, ghost base: seq<Event>, ghost before: Blocks)
      returns (ok: bool, visitedNow: set<string>, ghost b: Blocks)
      requires plan.Valid() && AtLevel(types, dependencies, owner)
      requires name in types && Returns(dependencies, name, depth)
      requires Progress(types, base, before) && Written(before) == visited <= types.Keys
      modifies this
      ensures currentType == old(currentType)
      ensures ok ==> Progress(types, base, b) && Written(b) == visitedNow <= types.Keys
      ensures ok ==> visited + {name} <= visitedNow && OrderOf(b) == Visit(dependencies, name, OrderOf(before), depth)
      ensures !ok ==> Unwritable(plan, types)
      decreases owner, depth, 1
    {
      assert depth > 0;
      hide Ordered, Flatten, Unwritable, Find, Returns, Plan.Valid, Written, Edge, AtLevel, Visit, VisitAll, OrderOf;
      OneVisit(dependencies, name, OrderOf(before), depth);
      NextReturns(types, dependencies, owner, name, depth);
      var names := DependenciesOf(dependencies, name);
      ok, visitedNow, b := WriteDependencies(names, types, dependencies, visited, owner, depth - 1, base, before);
      if !ok {
        return;
      }
      NamesWritten(b);
      if name in visitedNow {
        return true, visitedNow, b;
      }
      DependenciesWritten(types, dependencies, owner, name, visitedNow);
      ok, b := WriteType(name, types, owner, base, b);
      visitedNow := visitedNow + {name};
    }

    /** The part of `generateType` behind the visited check. */
    method WriteType(name: string, types: Collection, ghost owner: Type, ghost base: seq<Event>, ghost before: Blocks)
      returns (ok: bool, ghost b: Blocks)
      requires plan.Valid() && AtLevel(types, EdgesAt(plan.edges, currentType), owner)
      requires name in types && name !in Written(before) && Progress(types, base, before)
      requires forall to :: Edge(plan.edges, currentType, name, to) ==> to in Written(before)
      modifies this
      ensures currentType == old(currentType)
      ensures ok ==> Progress(types, base, b) && Written(b) == Written(before) + {name}
      ensures ok ==> OrderOf(b) == OrderOf(before) + [name]
      ensures !ok ==> Unwritable(plan, types)
      decreases owner, 0
    {
      hide Ordered, Flatten, Plan.Valid, Unwritable, Plan.Writable, Find, LevelOrder;
      var t := types[name];
      ghost var level := currentType;
      LevelInside(plan.types, level, name);
      currentType := currentType + [name];
      events := events + [Open(currentType)];
      ok, b := GenerateTypes(t.nestedTypes, EdgesAt(plan.edges, currentType), t);
      if !ok {
        UnwritableInside(plan, types, name);
      } else if !plan.Writable(t.data) {
        UnwritableHere(plan, types, name);
        ok := false;
      } else {
        events := events + [Fields(currentType), Close(currentType)];
        AppendOrdered(plan, types, level, before, name, b);
        FlattenAppend(base, level, before, name, b);
        b := Append(before, name, b);
      }
      currentType := currentType[..|currentType| - 1];
      assert currentType == level;
    }
  }

  /** Some type names another that cannot be found. */
  ghost predicate Unwritable(plan: Plan, types: Collection) {
    exists p: Path :: p != [] && Find(types, p).Some? && !plan.Writable(Find(types, p).value.data)
  }

  // ---- what the order means ----

  /** Some `e` is written before some `f`. */
  ghost predicate Before(s: seq<Event>, e: Event, f: Event) {
    exists i, j :: 0 <= i < j < |s| && s[i] == e && s[j] == f
  }

  lemma BeforeWithin(before: seq<Event>, s: seq<Event>, after: seq<Event>, e: Event, f: Event)
    requires Before(s, e, f)
    ensures Before(before + s + after, e, f)
  {
    var i, j :| 0 <= i < j < |s| && s[i] == e && s[j] == f;
    var n, r := |before|, before + s + after;
    assert r[n + i] == e && r[n + j] == f;
  }

  lemma BeforeAcross(s: seq<Event>, t: seq<Event>, e: Event, f: Event)
    requires e in s && f in t
    ensures Before(s + t, e, f)
  {
    var i :| 0 <= i < |s| && s[i] == e;
    var j :| 0 <= j < |t| && t[j] == f;
    assert (s + t)[i] == e && (s + t)[|s| + j] == f;
  }

  /** The events of a type and all that is nested in it. */
  ghost function BlockOf(level: Path, name: string, inner: Blocks): seq<Event> {
    var p := level + [name];
    [Open(p)] + Flatten(p, inner) + [Fields(p), Close(p)]
  }

  /** The events of one type: its own three, and those of the types nested in it. */
  lemma {:induction false} InBlock(plan: Plan, types: Collection, level: Path, name: string, inner: Blocks, e: Event)
    requires name in types && Written(inner) == types[name].nestedTypes.Keys
    requires e in Flatten(level + [name], inner) <==>
      (level + [name] < e.path && e.path[|level| + 1] in Written(inner) &&
       Find(types[name].nestedTypes, e.path[|level| + 1..]).Some?)
    ensures e in BlockOf(level, name, inner) <==>
      (level < e.path && e.path[|level|] == name && Find(types, e.path[|level|..]).Some?)
  {
    hide Flatten;
    var p := level + [name];
    assert e in BlockOf(level, name, inner) <==> e.path == p || e in Flatten(p, inner);
    if level < e.path && e.path[|level|] == name {
      hide Find;
      FindInBlock(types, level, name, e.path);
    } else {
      assert p[|level|] == name;
    }
  }

  /** Exactly the types in the tree are written. */
  lemma {:induction false} WrittenExactly(plan: Plan, types: Collection, level: Path, b: Blocks, e: Event)
    requires Ordered(plan, types, level, b)
    ensures e in Flatten(level, b) <==>
      (level < e.path && e.path[|level|] in Written(b) && Find(types, e.path[|level|..]).Some?)
    decreases b
  {
    hide Find, BlockOf, Plan.Writable, LevelOrder, OrderOf;
    if b.Append? {
      var p := level + [b.name];
      var nested := types[b.name].nestedTypes;
      WrittenExactly(plan, types, level, b.earlier, e);
      WrittenExactly(plan, nested, p, b.inner, e);
      InBlock(plan, types, level, b.name, b.inner, e);
      FlattenBlock(level, b);
    }
  }

  lemma FlattenBlock(level: Path, b: Blocks)
    requires b.Append?
    ensures Flatten(level, b) == Flatten(level, b.earlier) + BlockOf(level, b.name, b.inner)
  {
  }

  lemma {:induction false} FindInBlock(types: Collection, level: Path, name: string, path: Path)
    requires name in types && level < path && path[|level|] == name
    ensures level + [name] <= path
    ensures path == level + [name] ==> Find(types, path[|level|..]).Some?
    ensures path != level + [name] ==>
      level + [name] < path && Find(types, path[|level|..]) == Find(types[name].nestedTypes, path[|level| + 1..])
    ensures path != level + [name] && path[|level| + 1] !in types[name].nestedTypes ==>
      Find(types, path[|level|..]) == None
  {
    var r := path[|level|..];
    assert r[0] == name;
    if |r| == 1 {
      assert path == level + [name];
    } else {
      assert r[1..] == path[|level| + 1..];
    }
  }

  ghost predicate NoRepeats(s: seq<Event>) {
    forall i, j :: 0 <= i < j < |s| ==> s[i] != s[j]
  }

  lemma NoRepeatsJoin(s: seq<Event>, t: seq<Event>)
    requires NoRepeats(s) && NoRepeats(t) && forall e :: e in s ==> e !in t
    ensures NoRepeats(s + t)
  {
    forall i, j | 0 <= i < j < |s + t|
      ensures (s + t)[i] != (s + t)[j]
    {
      if i < |s| <= j {
        assert (s + t)[i] in s && (s + t)[j] in t;
      }
    }
  }

  lemma NoRepeatsBlock(level: Path, name: string, inner: Blocks)
    requires NoRepeats(Flatten(level + [name], inner))
    requires forall e :: e in Flatten(level + [name], inner) ==> e.path != level + [name]
    ensures NoRepeats(BlockOf(level, name, inner))
  {
    hide Flatten;
    var p := level + [name];
    NoRepeatsJoin([Open(p)], Flatten(p, inner));
    NoRepeatsJoin([Open(p)] + Flatten(p, inner), [Fields(p), Close(p)]);
  }

  /** No type is written twice. */
  lemma {:induction false} WrittenOnce(plan: Plan, types: Collection, level: Path, b: Blocks)
    requires Ordered(plan, types, level, b)
    ensures NoRepeats(Flatten(level, b))
    decreases b
  {
    hide Find, BlockOf, Plan.Writable, NoRepeats, LevelOrder, OrderOf;
    if b.Append? {
      var p := level + [b.name];
      var nested := types[b.name].nestedTypes;
      WrittenOnce(plan, types, level, b.earlier);
      WrittenOnce(plan, nested, p, b.inner);
      forall e | e in Flatten(p, b.inner)
        ensures e.path != p
      {
        WrittenExactly(plan, nested, p, b.inner, e);
      }
      NoRepeatsBlock(level, b.name, b.inner);
      forall e | e in Flatten(level, b.earlier)
        ensures e !in BlockOf(level, b.name, b.inner)
      {
        WrittenExactly(plan, types, level, b.earlier, e);
        WrittenExactly(plan, nested, p, b.inner, e);
        InBlock(plan, types, level, b.name, b.inner, e);
      }
      NoRepeatsJoin(Flatten(level, b.earlier), BlockOf(level, b.name, b.inner));
      FlattenBlock(level, b);
    } else {
      assert NoRepeats([]) by { NoRepeatsNone(); }
    }
  }

  lemma NoRepeatsNone()
    ensures NoRepeats([])
  {
  }

  /** Whatever has been written could be. */
  lemma {:induction false} WrittenIsWritable(plan: Plan, types: Collection, level: Path, b: Blocks, p: Path)
    requires Ordered(plan, types, level, b) && p != [] && p[0] in Written(b) && Find(types, p).Some?
    ensures plan.Writable(Find(types, p).value.data)
    decreases b
  {
    hide Plan.Writable, LevelOrder, OrderOf;
    if p[0] != b.name {
      WrittenIsWritable(plan, types, level, b.earlier, p);
    } else if |p| > 1 {
      FindTail(types, p);
      WrittenIsWritable(plan, types[b.name].nestedTypes, level + [b.name], b.inner, p[1..]);
    }
  }

  // ---- the order of the events ----

  lemma BlockOrder(level: Path, name: string, inner: Blocks)
    ensures
      var p, block := level + [name], BlockOf(level, name, inner);
      && Before(block, Open(p), Fields(p)) && Before(block, Fields(p), Close(p))
      && (forall e :: e in Flatten(p, inner) ==> Before(block, Open(p), e) && Before(block, e, Fields(p)))
  {
    hide Flatten;
    var p, block, middle := level + [name], BlockOf(level, name, inner), Flatten(level + [name], inner);
    var n := |middle|;
    assert block[0] == Open(p) && block[n + 1] == Fields(p) && block[n + 2] == Close(p);
    forall e | e in middle
      ensures Before(block, Open(p), e) && Before(block, e, Fields(p))
    {
      var i :| 0 <= i < n && middle[i] == e;
      assert block[i + 1] == e;
    }
  }

  lemma BeforeInEarlier(level: Path, b: Blocks, e: Event, f: Event)
    requires b.Append? && Before(Flatten(level, b.earlier), e, f)
    ensures Before(Flatten(level, b), e, f)
  {
    hide Before, BlockOf;
    FlattenBlock(level, b);
    BeforeWithin([], Flatten(level, b.earlier), BlockOf(level, b.name, b.inner), e, f);
    assert [] + Flatten(level, b.earlier) == Flatten(level, b.earlier);
  }

  lemma BeforeInBlock(level: Path, b: Blocks, e: Event, f: Event)
    requires b.Append? && Before(BlockOf(level, b.name, b.inner), e, f)
    ensures Before(Flatten(level, b), e, f)
  {
    hide Before, BlockOf;
    FlattenBlock(level, b);
    BeforeWithin(Flatten(level, b.earlier), BlockOf(level, b.name, b.inner), [], e, f);
    assert Flatten(level, b) + [] == Flatten(level, b);
  }

  lemma BeforeInside(level: Path, b: Blocks, e: Event, f: Event)
    requires b.Append? && Before(Flatten(level + [b.name], b.inner), e, f)
    ensures Before(Flatten(level, b), e, f)
  {
    hide Before, Flatten;
    var p := level + [b.name];
    BeforeWithin([Open(p)], Flatten(p, b.inner), [Fields(p), Close(p)], e, f);
    assert Before(BlockOf(level, b.name, b.inner), e, f);
    BeforeInBlock(level, b, e, f);
  }

  lemma {:induction false} FindTail(types: Collection, p: Path)
    requires |p| > 1 && Find(types, p).Some?
    ensures p[0] in types && p[1] in types[p[0]].nestedTypes
    ensures Find(types[p[0]].nestedTypes, p[1..]) == Find(types, p)
  {
    assert p[1..][0] == p[1];
  }

  /** A type's own events come in order, and those of what is nested in it between its heading and its
      fields. */
  lemma {:induction false} NestingOrder(plan: Plan, types: Collection, level: Path, b: Blocks, r: Path, s: Path)
    requires Ordered(plan, types, level, b) && r != [] && r <= s && r[0] in Written(b)
    requires Find(types, r).Some? && Find(types, s).Some?
    ensures Before(Flatten(level, b), Open(level + r), Fields(level + r))
    ensures Before(Flatten(level, b), Fields(level + r), Close(level + r))
    ensures r < s ==> Before(Flatten(level, b), Open(level + r), Open(level + s))
    ensures r < s ==> Before(Flatten(level, b), Close(level + s), Fields(level + r))
    decreases b
  {
    hide Find, Before, BlockOf, Plan.Writable, Flatten, LevelOrder, OrderOf;
    var p, nested := level + [b.name], types[b.name].nestedTypes;
    var open, fields, close := Open(level + r), Fields(level + r), Close(level + r);
    var openInner, closeInner := Open(level + s), Close(level + s);
    if r[0] != b.name {
      NestingOrder(plan, types, level, b.earlier, r, s);
      BeforeInEarlier(level, b, open, fields);
      BeforeInEarlier(level, b, fields, close);
      if r < s {
        BeforeInEarlier(level, b, open, openInner);
        BeforeInEarlier(level, b, closeInner, fields);
      }
    } else if |r| == 1 {
      assert level + r == p;
      BlockOrder(level, b.name, b.inner);
      BeforeInBlock(level, b, open, fields);
      BeforeInBlock(level, b, fields, close);
      if r < s {
        FindTail(types, s);
        assert (level + s)[|level| + 1..] == s[1..];
        WrittenExactly(plan, nested, p, b.inner, openInner);
        WrittenExactly(plan, nested, p, b.inner, closeInner);
        BeforeInBlock(level, b, open, openInner);
        BeforeInBlock(level, b, closeInner, fields);
      }
    } else {
      FindTail(types, r);
      FindTail(types, s);
      assert p + r[1..] == level + r && p + s[1..] == level + s && (r < s <==> r[1..] < s[1..]);
      NestingOrder(plan, nested, p, b.inner, r[1..], s[1..]);
      BeforeInside(level, b, open, fields);
      BeforeInside(level, b, fields, close);
      if r < s {
        BeforeInside(level, b, open, openInner);
        BeforeInside(level, b, closeInner, fields);
      }
    }
  }

  /** What an edge points to, with all that is nested in it, is closed before what it comes from, or anything
      nested in that, is opened. */
  lemma {:induction false} EdgeOrder(plan: Plan, types: Collection, level: Path, b: Blocks, c: Path,
                                     from: string, to: string, r: Path, s: Path)
    requires Ordered(plan, types, level, b) && c + [from] <= r && c + [to] <= s && r[0] in Written(b)
    requires Find(types, r).Some? && Find(types, s).Some? && Edge(plan.edges, level + c, from, to)
    ensures Before(Flatten(level, b), Close(level + s), Open(level + r))
    decreases b
  {
    hide Find, Before, BlockOf, Plan.Writable, Flatten, Edge, LevelOrder, OrderOf;
    var p, nested := level + [b.name], types[b.name].nestedTypes;
    var open, close := Open(level + r), Close(level + s);
    assert r[0] == (c + [from])[0] && s[0] == (c + [to])[0];
    if r[0] != b.name {
      EdgeOrder(plan, types, level, b.earlier, c, from, to, r, s);
      BeforeInEarlier(level, b, close, open);
    } else if c == [] {
      assert level + c == level;
      assert (level + s)[|level|..] == s && (level + r)[|level|..] == r;
      WrittenExactly(plan, types, level, b.earlier, close);
      EdgeBlock(plan, types, level, b, open);
      FlattenBlock(level, b);
      BeforeAcross(Flatten(level, b.earlier), BlockOf(level, b.name, b.inner), close, open);
    } else {
      FindTail(types, r);
      FindTail(types, s);
      assert p + c[1..] == level + c && p + r[1..] == level + r && p + s[1..] == level + s;
      assert (c + [from])[1..] == c[1..] + [from] && (c + [to])[1..] == c[1..] + [to];
      EdgeOrder(plan, nested, p, b.inner, c[1..], from, to, r[1..], s[1..]);
      BeforeInside(level, b, close, open);
    }
  }

  lemma {:induction false} EdgeBlock(plan: Plan, types: Collection, level: Path, b: Blocks, e: Event)
    requires b.Append? && Ordered(plan, types, level, b)
    requires level < e.path && e.path[|level|] == b.name && Find(types, e.path[|level|..]).Some?
    ensures e in BlockOf(level, b.name, b.inner)
  {
    WrittenExactly(plan, types[b.name].nestedTypes, level + [b.name], b.inner, e);
    InBlock(plan, types, level, b.name, b.inner, e);
  }
}
