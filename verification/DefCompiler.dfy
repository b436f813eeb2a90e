/** The def compiler from directives to ordered definitions. */
module DefCompiler {
  import opened Bytes
  import opened Dependencies
  import opened Directives
  import opened Emission
  import opened Names
  import opened TypeTree

  // ---- what the directives ask for ----

  ghost predicate FieldsHold(fields: seq<Field>, d: string) {
    exists i :: 0 <= i < |fields| && fields[i].typeName == d && HoldsDefinition(fields[i])
  }

  /** The type `n` needs the definition of `d`: a field holds it, or `n` is a def and it is the base of all
      defs, or `n` is an alias and it is the target. */
  ghost predicate Needs(original: map<string, Directive>, n: string, d: string) {
    n in original &&
    match original[n]
    case StructureType(fields) => FieldsHold(fields, d)
    case DefType(_, _, fields) => d == "BaseDef" || FieldsHold(fields, d)
    case EnumType(_, _) => false
    case DefAliasType(_, target) => d == target
  }

  /** Dependency collection looks for exactly these. */
  lemma UsesAreThese(original: map<string, Directive>, n: string, d: string)
    requires n in original
    ensures d in UsesOf(original[n]) <==> Needs(original, n, d)
  {
  }

  /** Some type in `a` at a level needs one in its sibling `b`. */
  ghost predicate SiblingNeeds(original: map<string, Directive>, level: Path, a: string, b: string) {
    exists n, d :: Needs(original, n, d) && EdgeFor(NestedPath(n), NestedPath(d), level, a, b)
  }

  ghost predicate NeedWalk(original: map<string, Directive>, level: Path, w: seq<string>) {
    w != [] && forall i :: 0 <= i < |w| - 1 ==> SiblingNeeds(original, level, w[i], w[i + 1])
  }

  /** At no level do the needs of siblings lead round in a circle. */
  ghost predicate NoCycles(original: map<string, Directive>) {
    forall level, w :: NeedWalk(original, level, w) && |w| > 1 ==> w[0] != w[|w| - 1]
  }

  /** Every needed type exists, and none lies around the type that needs it. */
  ghost predicate NeedsMet(original: map<string, Directive>) {
    forall n, d :: Needs(original, n, d) ==> d in original && !(NestedPath(d) < NestedPath(n))
  }

  /** Every type that is named in the text of a definition exists. */
  ghost predicate NamesKnown(original: map<string, Directive>) {
    forall n :: n in original ==> NamedTypes(original[n]) <= original.Keys
  }

  ghost function FieldNames(fields: seq<Field>): set<string> {
    set f | f in fields && MentionsType(f) :: f.typeName
  }

  ghost function NamedTypes(d: Directive): set<string> {
    match d
    case StructureType(fields) => FieldNames(fields)
    case DefType(_, _, fields) => FieldNames(fields)
    case EnumType(_, _) => {}
    case DefAliasType(_, target) => {target}
  }

  // ---- from the tree back to the directives ----

  /** In the nested tree a name is found exactly when it was declared. */
  lemma {:induction false} FoundIfDeclared(tree: TypeCollection, original: map<string, Directive>, n: string)
    requires tree.Nested(original)
    ensures Find(tree.types, tree.PathOf(n)).Some? <==> n in original
  {
    hide Find, NestedPath;
    if n !in original {
      assert tree.PathOf(n) == [n];
      forall k | k in original
        ensures NestedPath(k) != [n]
      {
        ComposeNestedPath(k);
        assert Compose([n]) == n;
      }
      assert !DataAt(tree.types, [n]).Some?;
    } else {
      assert DataAt(tree.types, NestedPath(n)).Some?;
    }
  }

  lemma {:induction false} NeedsAreUses(tree: TypeCollection, original: map<string, Directive>, n: string, d: string)
    requires tree.Nested(original) && n in original
    ensures Uses(tree.types, NestedPath(n), d) <==> Needs(original, n, d)
  {
    hide Find, NestedPath, UsesOf, Needs;
    assert DataAt(tree.types, tree.PathOf(n)) == Some(original[n]);
    UsesAreThese(original, n, d);
  }

  lemma {:induction false} UsesAreNeeds(tree: TypeCollection, original: map<string, Directive>, p: Path, d: string)
    requires tree.Nested(original) && Uses(tree.types, p, d)
    ensures exists n :: p == NestedPath(n) && Needs(original, n, d)
  {
    hide Find, NestedPath, UsesOf;
    assert DataAt(tree.types, p).Some?;
    var n :| n in original && p == NestedPath(n);
    NeedsAreUses(tree, original, n, d);
  }

  /** The dependency collector accepts a tree exactly when every need is met. */
  lemma {:induction false} PermittedIfMet(collector: DependencyCollector, original: map<string, Directive>)
    requires collector.tree.Nested(original)
    ensures (forall p: Path, n :: Uses(collector.tree.types, p, n) ==> collector.Permitted(p, n)) <==>
      NeedsMet(original)
  {
    hide Find, NestedPath, UsesOf, Uses, Needs;
    var tree := collector.tree;
    if NeedsMet(original) {
      forall p: Path, d | Uses(tree.types, p, d)
        ensures collector.Permitted(p, d)
      {
        UsesAreNeeds(tree, original, p, d);
        var n :| p == NestedPath(n) && Needs(original, n, d);
        NeedDeclared(original, n, d);
        PermittedNeed(collector, original, n, d);
      }
    }
    if forall p: Path, n :: Uses(tree.types, p, n) ==> collector.Permitted(p, n) {
      forall n, d | Needs(original, n, d)
        ensures d in original && !(NestedPath(d) < NestedPath(n))
      {
        NeedDeclared(original, n, d);
        NeedsAreUses(tree, original, n, d);
        PermittedNeed(collector, original, n, d);
      }
    }
  }

  lemma NeedDeclared(original: map<string, Directive>, n: string, d: string)
    requires Needs(original, n, d)
    ensures n in original
  {
  }

  lemma {:induction false} PermittedNeed(collector: DependencyCollector, original: map<string, Directive>, n: string,
                                         d: string)
    requires collector.tree.Nested(original) && n in original
    ensures collector.Permitted(NestedPath(n), d) <==> d in original && !(NestedPath(d) < NestedPath(n))
  {
    hide Find, NestedPath;
    FoundIfDeclared(collector.tree, original, d);
    FoundIfDeclared(collector.tree, original, n);
  }

  /** The edges are the needs of siblings. */
  lemma {:induction false} EdgesAreNeeds(collector: DependencyCollector, original: map<string, Directive>, l: Path,
                                         a: string, b: string)
    requires collector.tree.Nested(original) && NeedsMet(original) && collector.EdgesComplete()
    ensures Edge(collector.edges, l, a, b) <==> SiblingNeeds(original, l, a, b)
  {
    hide Find, NestedPath, UsesOf, Uses, Needs, Edge, EdgeFor;
    var tree := collector.tree;
    if Edge(collector.edges, l, a, b) {
      var p: Path, d :| Uses(tree.types, p, d) && EdgeFor(p, tree.PathOf(d), l, a, b);
      UsesAreNeeds(tree, original, p, d);
      var n :| p == NestedPath(n) && Needs(original, n, d);
      assert SiblingNeeds(original, l, a, b);
    }
    if SiblingNeeds(original, l, a, b) {
      var n, d :| Needs(original, n, d) && EdgeFor(NestedPath(n), NestedPath(d), l, a, b);
      NeedDeclared(original, n, d);
      NeedsAreUses(tree, original, n, d);
      assert tree.PathOf(d) == NestedPath(d);
    }
  }

  /** A walk along the edges is one along the needs. */
  lemma {:induction false} WalksAreNeedWalks(collector: DependencyCollector, original: map<string, Directive>, l: Path,
                                             w: seq<string>)
    requires collector.tree.Nested(original) && NeedsMet(original) && collector.EdgesComplete()
    ensures IsWalk(EdgesAt(collector.edges, l), w) <==> NeedWalk(original, l, w)
  {
    hide Find, NestedPath, SiblingNeeds, EdgesAt, TypeCollection.Nested, NeedsMet, DependencyCollector.EdgesComplete;
    var dependencies := EdgesAt(collector.edges, l);
    if IsWalk(dependencies, w) {
      forall i | 0 <= i < |w| - 1
        ensures SiblingNeeds(original, l, w[i], w[i + 1])
      {
        assert Edge(collector.edges, l, w[i], w[i + 1]);
        EdgesAreNeeds(collector, original, l, w[i], w[i + 1]);
      }
    }
    if NeedWalk(original, l, w) {
      forall i | 0 <= i < |w| - 1
        ensures w[i] in dependencies && w[i + 1] in dependencies[w[i]]
      {
        EdgesAreNeeds(collector, original, l, w[i], w[i + 1]);
        assert Edge(collector.edges, l, w[i], w[i + 1]);
      }
    }
  }

  lemma {:induction false} CyclesAreNeedCycles(collector: DependencyCollector, original: map<string, Directive>)
    requires collector.tree.Nested(original) && NeedsMet(original) && collector.EdgesComplete()
    ensures NoCycles(original) <==> forall l :: Acyclic(EdgesAt(collector.edges, l))
  {
    hide IsWalk, NeedWalk, EdgesAt, TypeCollection.Nested, NeedsMet, DependencyCollector.EdgesComplete;
    forall l, w
      ensures IsWalk(EdgesAt(collector.edges, l), w) <==> NeedWalk(original, l, w)
    {
      WalksAreNeedWalks(collector, original, l, w);
    }
  }

  lemma {:induction false} EdgeInLevel(types: Collection, p: Path, level: Path, a: string)
    requires level + [a] <= p && Find(types, p).Some?
    ensures IsLevel(types, level) && a in CollectionAt(types, level)
  {
    FindPrefix(types, level + [a], p);
    if level != [] {
      FindPrefix(types, level, p);
    }
    FindBelow(types, level, [a]);
  }

  lemma {:induction false} PlanClosed(collector: DependencyCollector, plan: Plan)
    requires collector.EdgesComplete()
    requires forall p: Path, d :: Uses(collector.tree.types, p, d) ==> collector.Permitted(p, d)
    requires plan == Plan(collector.tree.types, collector.tree.renames, collector.edges)
    ensures plan.Closed()
  {
    hide Find, Uses, Edge, CollectionAt;
    var tree := collector.tree;
    forall l, a, b | Edge(plan.edges, l, a, b)
      ensures IsLevel(plan.types, l) && a in CollectionAt(plan.types, l) && b in CollectionAt(plan.types, l)
    {
      var p: Path, d :| Uses(tree.types, p, d) && EdgeFor(p, tree.PathOf(d), l, a, b);
      assert collector.Permitted(p, d);
      EdgeInLevel(tree.types, p, l, a);
      EdgeInLevel(tree.types, tree.PathOf(d), l, b);
    }
  }

  /** What nesting and dependency collection leave is fit for generation, and every call of generation returns,
      exactly if the needs of siblings lead round in no circle. */
  lemma {:induction false} ReturnsIffNoCycles(collector: DependencyCollector, original: map<string, Directive>,
                                              plan: Plan)
    requires collector.tree.Nested(original) && NeedsMet(original) && collector.EdgesComplete()
    requires plan == Plan(collector.tree.types, collector.tree.renames, collector.edges)
    ensures plan.Valid() <==> NoCycles(original)
    ensures (forall level :: IsLevel(plan.types, level) ==> plan.LevelReturns(level)) <==> NoCycles(original)
  {
    hide TypeCollection.Nested, NeedsMet, NoCycles, Acyclic, EdgesAt, IsLevel, Plan.LevelReturns, Plan.Closed;
    PlanClosed(collector, plan);
    CyclesAreNeedCycles(collector, original);
    AllLevelsReturn(plan);
  }

  /** A name can be written exactly when it was declared. */
  lemma {:induction false} ResolvesIfDeclared(tree: TypeCollection, original: map<string, Directive>, plan: Plan,
                                              n: string)
    requires tree.Nested(original) && plan.types == tree.types && plan.renames == tree.renames
    ensures plan.Resolves(n) <==> n in original
  {
    hide Find, NestedPath;
    FoundIfDeclared(tree, original, n);
    assert plan.PathOf(n) == tree.PathOf(n);
  }

  lemma {:induction false} WritableIfKnown(tree: TypeCollection, original: map<string, Directive>, plan: Plan,
                                           d: Directive)
    requires tree.Nested(original) && plan.types == tree.types && plan.renames == tree.renames
    ensures plan.Writable(d) <==> NamedTypes(d) <= original.Keys
  {
    hide Find, NestedPath, TypeCollection.Nested, Plan.Resolves;
    forall n
      ensures plan.Resolves(n) <==> n in original
    {
      ResolvesIfDeclared(tree, original, plan, n);
    }
    match d
    case StructureType(fields) => FieldsWritable(original, plan, fields);
    case DefType(_, _, fields) => FieldsWritable(original, plan, fields);
    case EnumType(_, _) =>
    case DefAliasType(_, target) =>
  }

  lemma {:induction false} FieldsWritable(original: map<string, Directive>, plan: Plan, fields: seq<Field>)
    requires forall n :: plan.Resolves(n) <==> n in original
    ensures (forall f :: f in fields ==> plan.WritableField(f)) <==> FieldNames(fields) <= original.Keys
  {
    hide Plan.Resolves;
    if FieldNames(fields) <= original.Keys {
      forall f | f in fields
        ensures plan.WritableField(f)
      {
        assert MentionsType(f) ==> f.typeName in FieldNames(fields);
      }
    }
  }

  // ---- the order of the output ----

  /** Every declared type is written exactly once, whole, inside the types its name nests it in, and after
      everything it needs: after it is closed when it does not itself enclose it, and before its own fields
      in any case. */
  ghost predicate WellOrdered(original: map<string, Directive>, out: seq<Event>) {
    && NoRepeats(out)
    && (forall e :: e in out <==> exists n :: n in original && e.path == NestedPath(n))
    && (forall n :: n in original ==> Whole(out, NestedPath(n)))
    && (forall m, n :: m in original && n in original ==> Inside(out, NestedPath(m), NestedPath(n)))
    && (forall n, d :: Needs(original, n, d) && d != n ==> Precedes(out, NestedPath(d), NestedPath(n)))
  }

  ghost predicate Whole(out: seq<Event>, p: Path) {
    Before(out, Open(p), Fields(p)) && Before(out, Fields(p), Close(p))
  }

  ghost predicate Inside(out: seq<Event>, p: Path, q: Path) {
    p < q ==> Before(out, Open(p), Open(q)) && Before(out, Close(q), Fields(p))
  }

  /** The definition at `q` is complete when the fields at `p` are written, and unless it is nested in `p`
      already when the heading of `p` is. */
  ghost predicate Precedes(out: seq<Event>, q: Path, p: Path) {
    Before(out, Close(q), Fields(p)) && (!(p < q) ==> Before(out, Close(q), Open(p)))
  }

  lemma BeforeTransitive(s: seq<Event>, e: Event, f: Event, g: Event)
    requires NoRepeats(s) && Before(s, e, f) && Before(s, f, g)
    ensures Before(s, e, g)
  {
    var i, j :| 0 <= i < j < |s| && s[i] == e && s[j] == f;
    var k, l :| 0 <= k < l < |s| && s[k] == f && s[l] == g;
    assert j == k;
  }

  lemma ProperPrefix(p: Path, q: Path)
    ensures p <= q <==> p < q || p == q
  {
    assert p <= q && |p| == |q| ==> p == q;
  }

  /** Two paths of which neither encloses the other part somewhere. */
  lemma {:induction false} PartSomewhere(p: Path, q: Path) returns (k: nat)
    requires !(p <= q) && !(q <= p)
    ensures k < |p| && k < |q| && p[..k] == q[..k] && p[k] != q[k]
  {
    k := 0;
    while k < |p| && k < |q| && p[k] == q[k]
      invariant k <= |p| && k <= |q| && p[..k] == q[..k]
    {
      k := k + 1;
    }
    assert p[..|p|] == p && q[..|q|] == q;
  }

  lemma {:induction false} EdgePrecedes(plan: Plan, b: Blocks, p: Path, q: Path, k: nat)
    requires k < |p| && k < |q| && p[..k] == q[..k] && p[k] != q[k]
    requires Ordered(plan, plan.types, [], b) && Written(b) == plan.types.Keys
    requires Find(plan.types, p).Some? && Find(plan.types, q).Some? && Edge(plan.edges, p[..k], p[k], q[k])
    ensures Precedes(Flatten([], b), q, p)
  {
    hide Find, Ordered, Flatten, Before, NoRepeats, Edge, Written;
    var c := p[..k];
    FirstIsRoot(plan.types, p);
    assert [] + p == p && [] + q == q && [] + c == c;
    assert c + [p[k]] <= p && c + [q[k]] <= q;
    EdgeOrder(plan, plan.types, [], b, c, p[k], q[k], p, q);
    NestingOrder(plan, plan.types, [], b, p, p);
    WrittenOnce(plan, plan.types, [], b);
    BeforeTransitive(Flatten([], b), Close(q), Open(p), Fields(p));
  }

  lemma {:induction false} SiblingNeed(original: map<string, Directive>, n: string, d: string, k: nat)
    requires Needs(original, n, d)
    requires var p, q := NestedPath(n), NestedPath(d); k < |p| && k < |q| && p[..k] == q[..k] && p[k] != q[k]
    ensures SiblingNeeds(original, NestedPath(n)[..k], NestedPath(n)[k], NestedPath(d)[k])
  {
    hide NestedPath, Needs;
    var p, q := NestedPath(n), NestedPath(d);
    EdgeWherePathsPart(p, q, k, p[..k], p[k], q[k]);
  }

  lemma {:induction false} NestedPrecedes(plan: Plan, b: Blocks, p: Path, q: Path)
    requires Ordered(plan, plan.types, [], b) && Written(b) == plan.types.Keys
    requires p != [] && p < q && Find(plan.types, p).Some? && Find(plan.types, q).Some?
    ensures Precedes(Flatten([], b), q, p)
  {
    hide Find, Ordered, Flatten, Before, Written;
    FirstIsRoot(plan.types, p);
    assert [] + p == p && [] + q == q;
    NestingOrder(plan, plan.types, [], b, p, q);
  }

  lemma {:induction false} NeedPrecedes(original: map<string, Directive>, plan: Plan, b: Blocks, n: string, d: string)
    requires Needs(original, n, d) && d != n && NeedsMet(original)
    requires Ordered(plan, plan.types, [], b) && Written(b) == plan.types.Keys
    requires Find(plan.types, NestedPath(n)).Some? && Find(plan.types, NestedPath(d)).Some?
    requires forall l, a, c :: Edge(plan.edges, l, a, c) <==> SiblingNeeds(original, l, a, c)
    ensures Precedes(Flatten([], b), NestedPath(d), NestedPath(n))
  {
    hide Find, NestedPath, Needs, Ordered, Flatten, Precedes, Edge, Written, SiblingNeeds;
    var p, q := NestedPath(n), NestedPath(d);
    ComposeNestedPath(n);
    ComposeNestedPath(d);
    if p < q {
      NestedPrecedes(plan, b, p, q);
    } else {
      ProperPrefix(p, q);
      ProperPrefix(q, p);
      var k := PartSomewhere(p, q);
      SiblingNeed(original, n, d, k);
      EdgePrecedes(plan, b, p, q, k);
    }
  }

  lemma {:induction false} FirstIsRoot(types: Collection, p: Path)
    requires p != [] && Find(types, p).Some?
    ensures p[0] in types
  {
  }

  lemma {:induction false} InsideHolds(plan: Plan, b: Blocks, p: Path, q: Path)
    requires Ordered(plan, plan.types, [], b) && Written(b) == plan.types.Keys
    requires p != [] && q != [] && Find(plan.types, p).Some? && Find(plan.types, q).Some?
    ensures Whole(Flatten([], b), p) && Inside(Flatten([], b), p, q)
  {
    hide Find, Ordered, Flatten, Before, Written;
    FirstIsRoot(plan.types, p);
    assert [] + p == p && [] + q == q;
    NestingOrder(plan, plan.types, [], b, p, p);
    if p < q {
      NestingOrder(plan, plan.types, [], b, p, q);
    }
  }

  lemma {:induction false} ExactlyTheTypes(tree: TypeCollection, original: map<string, Directive>, plan: Plan,
                                           b: Blocks, e: Event)
    requires tree.Nested(original) && plan.types == tree.types
    requires Ordered(plan, plan.types, [], b) && Written(b) == plan.types.Keys
    ensures e in Flatten([], b) <==> exists n :: n in original && e.path == NestedPath(n)
  {
    hide NestedPath, Ordered, Flatten, Written, Find;
    WrittenExactly(plan, plan.types, [], b, e);
    assert e.path[0..] == e.path;
    if e.path != [] && Find(plan.types, e.path).Some? {
      FirstIsRoot(plan.types, e.path);
      assert DataAt(plan.types, e.path).Some?;
    }
    forall n | n in original && e.path == NestedPath(n)
      ensures Find(plan.types, e.path).Some?
    {
      FoundIfDeclared(tree, original, n);
    }
  }

  /** The order of definitions, over all inputs on which generation succeeds. */
  lemma {:induction false} EmissionOrder(tree: TypeCollection, original: map<string, Directive>, plan: Plan, b: Blocks)
    requires tree.Nested(original) && plan.types == tree.types && NeedsMet(original)
    requires Ordered(plan, plan.types, [], b) && Written(b) == plan.types.Keys
    requires forall l, a, c :: Edge(plan.edges, l, a, c) <==> SiblingNeeds(original, l, a, c)
    ensures WellOrdered(original, Flatten([], b))
  {
    hide NestedPath, Needs, Ordered, Flatten, Edge, Written, Find, SiblingNeeds, Precedes, Inside, Whole, NoRepeats;
    var out := Flatten([], b);
    WrittenOnce(plan, plan.types, [], b);
    forall e
      ensures e in out <==> exists n :: n in original && e.path == NestedPath(n)
    {
      ExactlyTheTypes(tree, original, plan, b, e);
    }
    forall n | n in original
      ensures Find(plan.types, NestedPath(n)).Some?
    {
      FoundIfDeclared(tree, original, n);
    }
    forall m, n | m in original && n in original
      ensures Whole(out, NestedPath(m)) && Inside(out, NestedPath(m), NestedPath(n))
    {
      InsideHolds(plan, b, NestedPath(m), NestedPath(n));
    }
    forall n, d | Needs(original, n, d) && d != n
      ensures Precedes(out, NestedPath(d), NestedPath(n))
    {
      NeedDeclared(original, n, d);
      NeedPrecedes(original, plan, b, n, d);
    }
  }

  lemma {:induction false} AllKnownIfWritable(tree: TypeCollection, original: map<string, Directive>, plan: Plan)
    requires tree.Nested(original) && plan.types == tree.types && plan.renames == tree.renames
    ensures Unwritable(plan, plan.types) <==> !NamesKnown(original)
  {
    hide Find, NestedPath, Plan.Writable, NamedTypes;
    if Unwritable(plan, plan.types) {
      var p: Path :| p != [] && Find(plan.types, p).Some? && !plan.Writable(Find(plan.types, p).value.data);
      assert DataAt(tree.types, p).Some?;
      var n :| n in original && p == NestedPath(n);
      assert DataAt(tree.types, tree.PathOf(n)) == Some(original[n]);
      WritableIfKnown(tree, original, plan, original[n]);
    }
    if !NamesKnown(original) {
      var n :| n in original && !(NamedTypes(original[n]) <= original.Keys);
      assert DataAt(tree.types, tree.PathOf(n)) == Some(original[n]);
      WritableIfKnown(tree, original, plan, original[n]);
    }
  }

  lemma {:induction false} NothingUnwritable(plan: Plan, b: Blocks)
    requires Ordered(plan, plan.types, [], b) && Written(b) == plan.types.Keys
    ensures !Unwritable(plan, plan.types)
  {
    hide Find, Ordered, Written, Plan.Writable;
    forall p: Path | p != [] && Find(plan.types, p).Some?
      ensures plan.Writable(Find(plan.types, p).value.data)
    {
      FirstIsRoot(plan.types, p);
      WrittenIsWritable(plan, plan.types, [], b, p);
    }
  }

  /** Generation, from a nested tree and its collected edges. */
  method Generate(collector: DependencyCollector, ghost original: map<string,
                  Directive>) returns (output: Option<seq<Event>>)
    requires collector.tree.Nested(original) && NeedsMet(original) && collector.EdgesComplete() && NoCycles(original)
    ensures output.Some? <==> NamesKnown(original)
    ensures output.Some? ==> WellOrdered(original, output.value)
  {
    hide NoCycles, NeedsMet, NamesKnown, WellOrdered, TypeCollection.Nested, DependencyCollector.EdgesComplete, Edge,
      SiblingNeeds, Unwritable, Plan.Valid, Find, Ordered, Written;
    var tree := collector.tree;
    var plan := Plan(tree.types, tree.renames, collector.edges);
    ReturnsIffNoCycles(collector, original, plan);
    var emitter := new Emitter(plan);
    var ok;
    ghost var blocks;
    ok, blocks := emitter.GenerateTypes(tree.types, EdgesAt(plan.edges, []), Type(EnumType([], map[]), tree.types));
    AllKnownIfWritable(tree, original, plan);
    if !ok {
      return None;
    }
    NothingUnwritable(plan, blocks);
    forall l, a, c
      ensures Edge(plan.edges, l, a, c) <==> SiblingNeeds(original, l, a, c)
    {
      EdgesAreNeeds(collector, original, l, a, c);
    }
    EmissionOrder(tree, original, plan, blocks);
    assert emitter.events == [] + Flatten([], blocks) == Flatten([], blocks);
    return Some(emitter.events);
  }

  /** `nestTypes`, dependency collection and generation together; `None` where the program throws. */
  method Compile(original: map<string, Directive>) returns (output: Option<seq<Event>>)
    requires ParentsExist(original.Keys) && NeedsMet(original) ==> NoCycles(original)
    ensures output.Some? <==> ParentsExist(original.Keys) && NeedsMet(original) && NamesKnown(original)
    ensures output.Some? ==> WellOrdered(original, output.value)
  {
    hide NoCycles, NeedsMet, NamesKnown, WellOrdered, ParentsExist, DependencyCollector.EdgesComplete,
      DependencyCollector.Permitted, DependencyCollector.Valid, Uses, Find;
    var tree := new TypeCollection(original);
    var ok := tree.NestTypes(original);
    if !ok {
      return None;
    }
    var collector := new DependencyCollector(tree);
    ok := collector.ProcessAll();
    PermittedIfMet(collector, original);
    if !ok {
      return None;
    }
    output := Generate(collector, original);
  }
}
