/** Which types must be defined before which: an edge between siblings at the level where the paths of a
    type and of what it uses part. */
module Dependencies {
  import opened Bytes
  import opened Directives
  import opened Names
  import opened TypeTree

  /** For each level of the tree (the path of the enclosing type, `[]` at the root), the siblings that each
      name depends on. */
  type Edges = map<Path, map<string, seq<string>>>

  function EdgesAt(edges: Edges, level: Path): map<string, seq<string>> {
    if level in edges then edges[level] else map[]
  }

  ghost predicate Edge(edges: Edges, level: Path, from: string, to: string) {
    from in EdgesAt(edges, level) && to in EdgesAt(edges, level)[from]
  }

  /** `emplace` into the multimap of a level. */
  function AddEdge(edges: Edges, level: Path, from: string, to: string): (r: Edges)
    ensures forall l, a, b :: Edge(r, l, a, b) <==> Edge(edges, l, a, b) || (l == level && a == from && b == to)
  {
    var siblings := EdgesAt(edges, level);
    var before := if from in siblings then siblings[from] else [];
    edges[level := siblings[from := before + [to]]]
  }

  /** The edge that a type at `p` using a type at `q` calls for: from the part of `p` to the part of `q`
      behind their common outer types. */
  ghost predicate EdgeFor(p: Path, q: Path, level: Path, from: string, to: string) {
    level + [from] <= p && level + [to] <= q && from != to
  }

  /** Paths that part after `k` names call for one edge, at that level. */
  lemma EdgeWherePathsPart(p: Path, q: Path, k: nat, level: Path, from: string, to: string)
    requires k < |p| && k < |q| && p[..k] == q[..k] && p[k] != q[k]
    ensures EdgeFor(p, q, level, from, to) <==> level == p[..k] && from == p[k] && to == q[k]
  {
    var n := |level|;
    assert forall i | 0 <= i < k :: p[i] == p[..k][i] == q[..k][i] == q[i];
    if level + [from] <= p && level + [to] <= q {
      assert forall i | 0 <= i < n :: p[i] == (level + [from])[i] == level[i] == (level + [to])[i] == q[i];
      assert p[n] == (level + [from])[n] == from && q[n] == (level + [to])[n] == to;
      assert n == k ==> level == p[..k];
    }
  }

  /** A type nested in its user calls for none. */
  lemma NoEdgeInside(p: Path, q: Path, level: Path, from: string, to: string)
    requires p <= q
    ensures !EdgeFor(p, q, level, from, to)
  {
    if level + [from] <= p && level + [to] <= q {
      assert (level + [from])[|level|] == p[|level|] == q[|level|] == (level + [to])[|level|];
    }
  }

  /** The test that dependency collection makes. */
  predicate NeedsDefinition(f: Field) {
    || f.fieldType in {Enum, Struct, PolymorphicReference}
    || (f.fieldType == Array && f.arrayType in {Enum, Struct, PolymorphicReference})
  }

  ghost function FieldUses(fields: seq<Field>): set<string> {
    set f | f in fields && HoldsDefinition(f) :: f.typeName
  }

  /** The names whose definitions a directive needs: every def derives from `BaseDef`, an alias from its
      target. */
  ghost function UsesOf(d: Directive): set<string> {
    match d
    case StructureType(fields) => FieldUses(fields)
    case DefType(_, _, fields) => {"BaseDef"} + FieldUses(fields)
    case EnumType(_, _) => {}
    case DefAliasType(_, target) => {target}
  }

  ghost predicate Uses(types: Collection, p: Path, name: string) {
    p != [] && Find(types, p).Some? && name in UsesOf(Find(types, p).value.data)
  }

  /** The types nested in the type at `level`. */
  ghost function CollectionAt(types: Collection, level: Path): Collection
    requires level == [] || Find(types, level).Some?
  {
    if level == [] then types else Find(types, level).value.nestedTypes
  }

  ghost predicate IsLevel(types: Collection, level: Path) {
    level == [] || Find(types, level).Some?
  }

  lemma {:induction false} FindBelow(types: Collection, level: Path, r: Path)
    requires IsLevel(types, level) && r != []
    ensures Find(types, level + r) == Find(CollectionAt(types, level), r)
    decreases |level|
  {
    if level == [] {
      assert level + r == r;
    } else {
      assert (level + r)[1..] == level[1..] + r;
      var nested := types[level[0]].nestedTypes;
      FindBelow(nested, level[1..], r);
      assert CollectionAt(types, level) == CollectionAt(nested, level[1..]);
    }
  }

  ghost function UsesAt(path: Path, names: set<string>): iset<(Path, string)> {
    iset u: (Path, string) | u.0 == path && u.1 in names
  }

  /** The uses at `level` and below of the types with these names. */
  ghost function UsesUnder(collection: Collection, level: Path, names: set<string>): iset<(Path, string)> {
    iset u: (Path, string) |
      level < u.0 && u.0[|level|] in names && Uses(collection, u.0[|level|..], u.1)
  }

  /** A use within one type is its own or one of its nested types'. */
  lemma {:induction false} UsesInOne(collection: Collection, level: Path, name: string, p: Path, n: string)
    requires name in collection && level < p && p[|level|] == name
    ensures Uses(collection, p[|level|..], n) <==>
      || (p, n) in UsesAt(level + [name], UsesOf(collection[name].data))
      || (p, n) in UsesUnder(collection[name].nestedTypes, level + [name], collection[name].nestedTypes.Keys)
  {
    var inner, nested, r := level + [name], collection[name].nestedTypes, p[|level|..];
    assert inner <= p && r[0] == name;
    if |r| == 1 {
      assert p == inner;
      assert Find(collection, r) == Some(collection[name]);
    } else {
      assert inner < p && r[1..] == p[|inner|..] && r[1] == p[|inner|];
      assert Find(collection, r) == Find(nested, r[1..]);
    }
  }

  /** The uses in one type of a level: its own, and those of the types nested in it. */
  ghost function UsesOfType(collection: Collection, level: Path, name: string): iset<(Path, string)>
    requires name in collection
  {
    UsesAt(level + [name], UsesOf(collection[name].data))
    + UsesUnder(collection[name].nestedTypes, level + [name], collection[name].nestedTypes.Keys)
  }

  lemma NoUsesUnder(collection: Collection, level: Path)
    ensures UsesUnder(collection, level, {}) == iset{}
  {
  }

  lemma {:induction false} UsesUnderStep(collection: Collection, level: Path, done: set<string>, name: string)
    requires name in collection
    ensures UsesUnder(collection, level, done + {name}) ==
      UsesUnder(collection, level, done) + UsesOfType(collection, level, name)
  {
    var inner := level + [name];
    var nested := collection[name].nestedTypes;
    forall p: Path, n | level < p && p[|level|] == name
      ensures Uses(collection, p[|level|..], n) <==>
        (p, n) in UsesAt(inner, UsesOf(collection[name].data)) || (p, n) in UsesUnder(nested, inner, nested.Keys)
    {
      UsesInOne(collection, level, name, p, n);
    }
    forall p: Path | inner <= p
      ensures level < p && p[|level|] == name
    {
      assert p[|level|] == inner[|level|];
    }
  }

  /** How many names two paths begin with in common. */
  method SameParts(p: Path, q: Path) returns (k: nat)
    ensures k <= |p| && k <= |q| && p[..k] == q[..k]
    ensures k < |p| && k < |q| ==> p[k] != q[k]
  {
    k := 0;
    while k < |p| && k < |q| && p[k] == q[k]
      invariant k <= |p| && k <= |q| && p[..k] == q[..k]
    {
      k := k + 1;
    }
  }

  /** The edge that two paths call for, if the used type is not around its user. */
  lemma EdgeOfPaths(p: Path, q: Path, k: nat, level: Path, from: string, to: string)
    requires k <= |p| && k <= |q| && p[..k] == q[..k] && (k < |p| ==> k < |q| && p[k] != q[k])
    ensures EdgeFor(p, q, level, from, to) <==> k < |p| && level == p[..k] && from == p[k] && to == q[k]
  {
    hide EdgeFor;
    if k < |p| {
      EdgeWherePathsPart(p, q, k, level, from, to);
    } else {
      assert p <= q;
      NoEdgeInside(p, q, level, from, to);
    }
  }

  class DependencyCollector {
    const tree: TypeCollection
    var edges: Edges
    ghost var recorded: iset<(Path, string)>

    constructor (tree: TypeCollection)
      ensures this.tree == tree && recorded == iset{} && Valid()
    {
      this.tree := tree;
      edges := map[];
      recorded := iset{};
    }

    /** The edges are exactly those the recorded uses call for. */
    ghost predicate Valid()
      reads this, tree
    {
      && (forall p: Path, n :: (p, n) in recorded ==> Permitted(p, n))
      && (forall l, a, b :: Edge(edges, l, a, b) <==> CalledForBy(recorded, l, a, b))
    }

    ghost predicate CalledForBy(uses: iset<(Path, string)>, l: Path, a: string, b: string)
      reads tree
    {
      exists p: Path, n :: (p, n) in uses && EdgeFor(p, tree.PathOf(n), l, a, b)
    }

    lemma CalledForMore(uses: iset<(Path, string)>, p: Path, name: string, l: Path, a: string, b: string)
      ensures CalledForBy(uses + iset{(p, name)}, l, a, b) <==>
        CalledForBy(uses, l, a, b) || EdgeFor(p, tree.PathOf(name), l, a, b)
    {
      hide EdgeFor;
      if EdgeFor(p, tree.PathOf(name), l, a, b) {
        assert (p, name) in uses + iset{(p, name)};
      }
    }

    /** What the compiler accepts: the name resolves, and not to an enclosing type. */
    ghost predicate Permitted(p: Path, name: string)
      reads tree
    {
      var q := tree.PathOf(name);
      q != [] && p != [] && Find(tree.types, p).Some? && Find(tree.types, q).Some? && !(q < p)
    }

    /** `addDependencyToType`; false where the program throws. */
    method AddDependency(path: Path, name: string) returns (ok: bool)
      requires Valid() && tree.PathOf(name) != [] && path != [] && Find(tree.types, path).Some?
      modifies this
      ensures Valid()
      ensures ok <==> Permitted(path, name)
      ensures recorded == if ok then old(recorded) + iset{(path, name)} else old(recorded)
    {
      hide EdgeFor, CalledForBy;
      var q, found := tree.FindTypeByName(name);
      if found == None {
        return false;
      }
      var sameParts := SameParts(path, q);
      if sameParts == |q| < |path| {
        assert q < path;
        return false;
      }
      ok := true;
      if sameParts < |path| {
        edges := AddEdge(edges, path[..sameParts], path[sameParts], q[sameParts]);
      }
      forall l, a, b
        ensures EdgeFor(path, q, l, a, b) <==>
          sameParts < |path| && l == path[..sameParts] && a == path[sameParts] && b == q[sameParts]
      {
        EdgeOfPaths(path, q, sameParts, l, a, b);
      }
      forall l, a, b
        ensures CalledForBy(recorded + iset{(path, name)}, l, a, b) <==>
          CalledForBy(recorded, l, a, b) || EdgeFor(path, q, l, a, b)
      {
        CalledForMore(recorded, path, name, l, a, b);
      }
      ghost var uses := recorded + iset{(path, name)};
      assert forall l, a, b :: Edge(edges, l, a, b) <==> CalledForBy(uses, l, a, b);
      recorded := uses;
    }

    /** What a step that records some more uses leaves behind. */
    twostate predicate Recorded(new more: iset<(Path, string)>)
      reads this, tree
    {
      Valid() && recorded == old(recorded) + more
    }

    /** Whether a whole set of uses is accepted. */
    ghost predicate AllPermitted(uses: iset<(Path, string)>)
      reads tree
    {
      forall p: Path, n :: (p, n) in uses ==> Permitted(p, n)
    }

    /** `processStructureFieldDependencies`. */
    method ProcessFields(path: Path, fields: seq<Field>) returns (ok: bool)
      requires Valid() && NamesResolve() && path != [] && Find(tree.types, path).Some?
      modifies this
      ensures ok <==> forall n :: n in FieldUses(fields) ==> Permitted(path, n)
      ensures ok ==> Recorded(UsesAt(path, FieldUses(fields)))
    {
      hide Permitted, CalledForBy;
      var i := 0;
      while i < |fields|
        invariant 0 <= i <= |fields| && NamesResolve()
        invariant forall n :: n in FieldUses(fields[..i]) ==> Permitted(path, n)
        invariant Recorded(UsesAt(path, FieldUses(fields[..i])))
      {
        FieldUsesStep(fields, i);
        if NeedsDefinition(fields[i]) {
          var added := AddDependency(path, fields[i].typeName);
          if !added {
            FieldUsesOf(fields, i);
            return false;
          }
        }
        i := i + 1;
      }
      assert fields[..i] == fields;
      ok := true;
    }

    /** `processEntryDependencies`, for each kind of directive. */
    method ProcessEntry(path: Path, d: Directive) returns (ok: bool)
      requires Valid() && NamesResolve() && path != [] && Find(tree.types, path).Some?
      modifies this
      ensures ok <==> AllPermitted(UsesAt(path, UsesOf(d)))
      ensures ok ==> Recorded(UsesAt(path, UsesOf(d)))
    {
      hide CalledForBy, Permitted;
      match d {
        case StructureType(fields) =>
          ok := ProcessFields(path, fields);
        case DefType(_, _, fields) =>
          ok := AddDependency(path, "BaseDef");
          if ok {
            ok := ProcessFields(path, fields);
          }
        case EnumType(_, _) =>
          ok := true;
        case DefAliasType(_, target) =>
          ok := AddDependency(path, target);
      }
    }

    /** `processCollectionDependencies`: the types of a level in map order, each with all that is nested
        in it. */
    method ProcessCollection(collection: Collection, path: Path, ghost owner: Type) returns (ok: bool)
      requires Valid() && NamesResolve()
      requires owner.nestedTypes == collection && IsLevel(tree.types, path)
      requires CollectionAt(tree.types, path) == collection
      modifies this
      ensures ok <==> AllPermitted(UsesUnder(collection, path, collection.Keys))
      ensures ok ==> Recorded(UsesUnder(collection, path, collection.Keys))
      decreases owner, 1
    {
      hide UsesUnder, UsesOfType, IsLevel, CollectionAt, AllPermitted, Valid, NamesResolve;
      NoUsesUnder(collection, path);
      NothingPermitted();
      var names := Sorted(collection.Keys);
      var i := 0;
      ghost var done, uses: iset<(Path, string)> := {}, iset{};
      assert recorded + uses == recorded;
      while i < |names|
        invariant 0 <= i <= |names| && Valid() && NamesResolve()
        invariant done == (set n | n in names[..i]) && uses == UsesUnder(collection, path, done)
        invariant AllPermitted(uses) && recorded == old(recorded) + uses
      {
        ghost var more := UsesOfType(collection, path, names[i]);
        UsesUnderStep(collection, path, done, names[i]);
        BothPermitted(uses, more);
        ok := ProcessType(collection, path, owner, names[i]);
        if !ok {
          NotAllPermitted(collection, path, names[i]);
          return false;
        }
        Regrouped(old(recorded), uses, more);
        done, uses := done + {names[i]}, uses + more;
        i := i + 1;
      }
      assert done == collection.Keys;
      ok := true;
    }

    lemma NothingPermitted()
      ensures AllPermitted(iset{})
    {
    }

    lemma BothPermitted(a: iset<(Path, string)>, b: iset<(Path, string)>)
      ensures AllPermitted(a + b) <==> AllPermitted(a) && AllPermitted(b)
    {
      hide Permitted;
    }

    static lemma Regrouped(a: iset<(Path, string)>, b: iset<(Path, string)>, c: iset<(Path, string)>)
      ensures a + b + c == a + (b + c)
    {
    }

    lemma NotAllPermitted(collection: Collection, path: Path, name: string)
      requires name in collection && !AllPermitted(UsesOfType(collection, path, name))
      ensures !AllPermitted(UsesUnder(collection, path, collection.Keys))
    {
      hide UsesUnder, UsesOfType, AllPermitted;
      UsesUnderStep(collection, path, collection.Keys, name);
      assert collection.Keys + {name} == collection.Keys;
      BothPermitted(UsesUnder(collection, path, collection.Keys), UsesOfType(collection, path, name));
    }

    /** One type of a level, and what is nested in it. */
    method ProcessType(collection: Collection, path: Path, ghost owner: Type, name: string) returns (ok: bool)
      requires Valid() && NamesResolve() && name in collection
      requires owner.nestedTypes == collection && IsLevel(tree.types, path)
      requires CollectionAt(tree.types, path) == collection
      modifies this
      ensures ok <==> AllPermitted(UsesOfType(collection, path, name))
      ensures ok ==> Recorded(UsesOfType(collection, path, name))
      decreases owner, 0
    {
      hide AllPermitted, Valid, NamesResolve, UsesAt, UsesUnder;
      var entry, inner := collection[name], path + [name];
      ghost var own, nested := UsesAt(inner, UsesOf(entry.data)), UsesUnder(entry.nestedTypes, inner,
        entry.nestedTypes.Keys);
      BothPermitted(own, nested);
      Regrouped(recorded, own, nested);
      FindBelow(tree.types, path, [name]);
      ok := ProcessEntry(inner, entry.data);
      if ok {
        ok := ProcessCollection(entry.nestedTypes, inner, entry);
      }
    }

    /** The whole tree: accepted exactly when every used name resolves, and none to a type around its
        user; then the edges are exactly those that the uses call for. */
    method ProcessAll() returns (ok: bool)
      requires Valid() && NamesResolve() && recorded == iset{}
      modifies this
      ensures ok <==> forall p: Path, n :: Uses(tree.types, p, n) ==> Permitted(p, n)
      ensures ok ==> EdgesComplete()
    {
      assert UsesUnder(tree.types, [], tree.types.Keys) == iset u: (Path, string) | Uses(tree.types, u.0, u.1) by {
        forall p: Path, n | Uses(tree.types, p, n)
          ensures (p, n) in UsesUnder(tree.types, [], tree.types.Keys)
        {
          assert p[0..] == p;
        }
      }
      ok := ProcessCollection(tree.types, [], Type(EnumType([], map[]), tree.types));
    }

    /** The edges are exactly those that the uses in the tree call for. */
    ghost predicate EdgesComplete()
      reads this, tree
    {
      && (forall p: Path, n :: Uses(tree.types, p, n) ==> Permitted(p, n))
      && (forall l, a, b :: Edge(edges, l, a, b) <==>
            exists p: Path, n :: Uses(tree.types, p, n) && EdgeFor(p, tree.PathOf(n), l, a, b))
    }

    /** The names the map of renames leads to are never empty. */
    ghost predicate NamesResolve()
      reads tree
    {
      forall n :: tree.PathOf(n) != []
    }
  }

  lemma FieldUsesStep(fields: seq<Field>, i: nat)
    requires i < |fields|
    ensures FieldUses(fields[..i + 1]) ==
      FieldUses(fields[..i]) + if NeedsDefinition(fields[i]) then {fields[i].typeName} else {}
  {
    assert fields[..i + 1] == fields[..i] + [fields[i]];
    assert forall f :: f in fields[..i + 1] <==> f in fields[..i] || f == fields[i];
  }

  lemma FieldUsesOf(fields: seq<Field>, i: nat)
    requires i < |fields| && NeedsDefinition(fields[i])
    ensures fields[i].typeName in FieldUses(fields)
  {
  }
}
