/** The interpreter and the generated code give the same values. */
module Agreement {
  import opened Bytes
  import opened CompiledFormat
  import opened CompiledWriter
  import opened Directives
  import opened DynamicParser
  import opened DynamicRecord
  import opened FieldFormat
  import opened Numbers
  import opened Streams

  type Value = CompiledFormat.Value

  // ---- generation for a whole set of directives ----

  /** Every structure that a field holds is declared. */
  ghost predicate AllNamesResolve(ctx: Context) {
    && ctx.structures.Keys !! ctx.defs.Keys
    && (forall name :: name in ctx.structures ==> AllDeclarable(ctx.structures[name]) && AllResolve(ctx,
      ctx.structures[name]))
    && (forall name :: name in ctx.defs ==> AllDeclarable(ctx.defs[name]) && AllResolve(ctx, ctx.defs[name]))
  }

  /** No structure contains itself directly: `depths` counts how deep each goes. */
  ghost predicate NoSelfContainment(ctx: Context, depths: map<string, nat>) {
    && depths.Keys == ctx.structures.Keys + ctx.defs.Keys
    && forall name, i :: name in depths && 0 <= i < |Body(ctx, name)| ==>
         var f := Body(ctx, name)[i];
         f.fieldType == Struct && f.typeName in depths ==> depths[f.typeName] < depths[name]
  }

  /** What is generated for one structure or def. */
  ghost predicate CompiledFrom(ctx: Context, name: string, s: CompiledStruct) {
    && (name in ctx.structures || name in ctx.defs)
    && AllDeclarable(Body(ctx, name)) && s.members == MembersOf(Body(ctx, name)) && InOrder(s)
  }

  /** Generates a serializer for each structure and def. */
  method CompileAll(ctx: Context, depths: map<string, nat>) returns (lib: Library)
    requires AllNamesResolve(ctx) && NoSelfContainment(ctx, depths)
    ensures Compiles(ctx, lib)
  {
    hide CompiledFrom, Compiles, MembersOf, InOrder, AllResolve, NoSelfContainment, AllDeclarable;
    var structs: map<string, CompiledStruct> := map[];
    var left := ctx.structures.Keys + ctx.defs.Keys;
    while left != {}
      invariant structs.Keys + left == ctx.structures.Keys + ctx.defs.Keys
      invariant forall name :: name in structs ==> CompiledFrom(ctx, name, structs[name])
      decreases |left|
    {
      var name :| name in left;
      var fields := Body(ctx, name);
      assert AllDeclarable(fields);
      var s := CompileStructure(fields);
      CompiledOne(ctx, name, s);
      structs := structs[name := s];
      left := left - {name};
    }
    lib := Library(structs, depths);
    AllCompiled(ctx, lib);
  }

  lemma CompiledOne(ctx: Context, name: string, s: CompiledStruct)
    requires name in ctx.structures || name in ctx.defs
    requires AllDeclarable(Body(ctx, name)) && s.members == MembersOf(Body(ctx, name)) && InOrder(s)
    ensures CompiledFrom(ctx, name, s)
  {
  }

  lemma {:induction false} LibraryIsValid(ctx: Context, lib: Library)
    requires AllNamesResolve(ctx) && NoSelfContainment(ctx, lib.depths) && lib.structs.Keys == lib.depths.Keys
    requires forall name :: name in lib.structs ==> CompiledFrom(ctx, name, lib.structs[name])
    ensures lib.Valid()
  {
    hide InOrder, Resolves, AllNamesResolve, NoSelfContainment, MembersOf, Library.Usable, Library.Depth, AllDeclarable;
    forall name, i | name in lib.structs && 0 <= i < |lib.structs[name].members|
      ensures lib.Usable(lib.structs[name].members[i])
      ensures lib.Depth(lib.structs[name].members[i]) <= 2 * lib.depths[name]
    {
      assert CompiledFrom(ctx, name, lib.structs[name]);
      MemberUsable(ctx, lib, name, i);
    }
  }

  lemma {:induction false} AllCompiled(ctx: Context, lib: Library)
    requires AllNamesResolve(ctx) && NoSelfContainment(ctx, lib.depths)
    requires lib.structs.Keys == ctx.structures.Keys + ctx.defs.Keys
    requires forall name :: name in lib.structs ==> CompiledFrom(ctx, name, lib.structs[name])
    ensures Compiles(ctx, lib)
  {
    hide InOrder, Resolves, MembersOf, Library.Valid, Library.Usable, Library.Depth, Declarable, CxxTypeOf;
    assert lib.structs.Keys == lib.depths.Keys;
    LibraryIsValid(ctx, lib);
    forall name | name in lib.structs
      ensures CompiledFrom(ctx, name, lib.structs[name])
    {
    }
  }

  lemma FieldUsable(ctx: Context, lib: Library, f: Field, depth: nat)
    requires Declarable(f) && Resolves(ctx, f.fieldType, f)
    requires ctx.structures.Keys + ctx.defs.Keys <= lib.structs.Keys == lib.depths.Keys
    requires f.fieldType == Struct && f.typeName in lib.depths ==> lib.depths[f.typeName] < depth
    ensures var t := CxxTypeOf(f.fieldType, f); lib.Usable(t) && lib.Depth(t) <= 2 * depth
  {
  }

  lemma {:induction false} MemberUsable(ctx: Context, lib: Library, name: string, i: nat)
    requires AllNamesResolve(ctx) && NoSelfContainment(ctx, lib.depths) && name in lib.depths
    requires lib.structs.Keys == lib.depths.Keys
    requires AllDeclarable(Body(ctx, name)) && i < |Body(ctx, name)|
    ensures var t := MembersOf(Body(ctx, name))[i]; lib.Usable(t) && lib.Depth(t) <= 2 * lib.depths[name]
  {
    hide Resolves, CxxTypeOf, Library.Usable, Library.Depth;
    var f := Body(ctx, name)[i];
    assert AllResolve(ctx, Body(ctx, name));
    assert Declarable(f) && Resolves(ctx, f.fieldType, f);
    FieldUsable(ctx, lib, f, lib.depths[name]);
  }

  // ---- what is read has the type that was asked for ----

  lemma {:induction false} IntegerInRange(data: seq<byte>, at: nat, size: nat, signed: bool, swap: bool)
    requires TakeInteger(data, at, size, signed, swap).Some?
    ensures InRange(TakeInteger(data, at, size, signed, swap).value, size, signed)
  {
    ValueInRange(TakeArithmetic(data, at, size, swap).value, signed);
  }

  lemma {:induction false} ReadIsTyped(lib: Library, t: CxxType, data: seq<byte>, at: nat, swap: bool)
    requires lib.Valid() && lib.Usable(t) && at <= |data| && TakeType(lib, t, data, at, swap).Some?
    ensures Typed(lib, t, TakeType(lib, t, data, at, swap).value.0)
    decreases |data| - at, lib.Depth(t), 0
  {
    hide TakeInteger, TakeArithmetic, TakeString, TakeElements, TakeStatements, InRange;
    match t
    case IntegerType(size, signed) => IntegerInRange(data, at, size, signed, swap);
    case EnumClass(_) => IntegerInRange(data, at, 4, true, swap);
    case ForeignKeyOf(_) => IntegerInRange(data, at, 4, false, swap);
    case AssetReferenceType => IntegerInRange(data, at, 4, false, swap);
    case PolymorphicReferenceOf(_) =>
      IntegerInRange(data, at, 4, true, swap);
      IntegerInRange(data, at + 4, 4, false, swap);
    case VectorOf(element) => ElementsAreTyped(lib, element, TakeUInt32(data, at, swap).value, data, at + 4, swap);
    case StructOf(name) => MembersAreTyped(lib, name, |lib.structs[name].program|, data, at, swap);
    case _ =>
  }

  lemma {:induction false} ElementsAreTyped(lib: Library, element: CxxType, n: nat, data: seq<byte>, at: nat,
                                            swap: bool)
    requires lib.Valid() && lib.Usable(element) && at <= |data| && TakeElements(lib, element, n, data, at, swap).Some?
    ensures var values := TakeElements(lib, element, n, data, at, swap).value.0;
      forall i :: 0 <= i < n ==> Typed(lib, element, values[i])
    decreases |data| - at, lib.Depth(element) + 1, n
  {
    hide TakeType, Typed;
    if n > 0 {
      ElementsAreTyped(lib, element, n - 1, data, at, swap);
      ReadIsTyped(lib, element, data, TakeElements(lib, element, n - 1, data, at, swap).value.1, swap);
    }
  }

  lemma {:induction false} MembersAreTyped(lib: Library, name: string, n: nat, data: seq<byte>, at: nat, swap: bool)
    requires lib.Valid() && name in lib.structs && n <= |lib.structs[name].program| && at <= |data|
    requires TakeStatements(lib, name, n, data, at, swap).Some?
    ensures var values := TakeStatements(lib, name, n, data, at, swap).value.0;
      forall i :: 0 <= i < n ==> Typed(lib, lib.structs[name].members[i], values[i])
    decreases |data| - at, 2 * lib.depths[name] + 1, n
  {
    hide TakeType, Typed;
    if n > 0 {
      MembersAreTyped(lib, name, n - 1, data, at, swap);
      ReadIsTyped(lib, lib.structs[name].members[n - 1], data, TakeStatements(lib, name, n - 1, data, at,
        swap).value.1, swap);
    }
  }

  // ---- the names in a container ----

  /** The names in a container after the first `n` fields have been filed. */
  ghost function UsedAfter(used: set<string>, fields: seq<Field>, n: nat): set<string>
    requires n <= |fields|
  {
    if n == 0 then used
    else
      var u := UsedAfter(used, fields, n - 1);
      u + {RealName(|u|, fields[n - 1].name)}
  }

  /** Each of the first `n` fields is filed under a name of its own. */
  ghost predicate NamesNew(used: set<string>, fields: seq<Field>, n: nat)
    requires n <= |fields|
  {
    n == 0 || (
      var u := UsedAfter(used, fields, n - 1);
      NamesNew(used, fields, n - 1) && RealName(|u|, fields[n - 1].name) !in u)
  }

  /** The order lists the fields, each once. */
  ghost predicate Tidy(c: Container) {
    && (forall i :: 0 <= i < |c.order| ==> c.order[i] in c.fields)
    && (forall i, j :: 0 <= i < j < |c.order| ==> c.order[i] != c.order[j])
    && (forall name :: name in c.fields ==> name in c.order)
  }

  lemma {:induction false} FillUses(ctx: Context, fields: seq<Field>, v: Value, n: nat, c: Container)
    requires v.Record? && n <= |v.values| && n <= |fields|
    ensures Fill(ctx, fields, v, n, c).fields.Keys == UsedAfter(c.fields.Keys, fields, n)
  {
    hide Present, RealName;
    if n > 0 {
      FillUses(ctx, fields, v, n - 1, c);
      KeysAreCounted(Fill(ctx, fields, v, n - 1, c).fields);
    }
  }

  lemma {:induction false} KeysAreCounted<T>(m: map<string, T>)
    ensures |m| == |m.Keys|
  {
    if m != map[] {
      var k :| k in m;
      var rest := m - {k};
      assert m.Keys == rest.Keys + {k} && m == rest[k := m[k]];
      KeysAreCounted(rest);
    }
  }

  /** Whether the next field's name is taken, said of the container and of the names used. */
  lemma {:induction false} NameTaken(ctx: Context, fields: seq<Field>, v: Value, n: nat, c: Container)
    requires v.Record? && n <= |v.values| && n < |fields|
    ensures var earlier := Fill(ctx, fields, v, n, c);
      (RealName(|earlier.fields|, fields[n].name) !in earlier.fields && NamesNew(c.fields.Keys, fields, n))
      <==> NamesNew(c.fields.Keys, fields, n + 1)
  {
    hide RealName, Fill;
    FillUses(ctx, fields, v, n, c);
    KeysAreCounted(Fill(ctx, fields, v, n, c).fields);
  }

  lemma NoNames(used: set<string>, fields: seq<Field>)
    ensures NamesNew(used, fields, 0)
  {
  }

  lemma OrderPut(c: Container, name: string, value: Dynamic)
    ensures |Put(c, name, value).order| == |c.order| + if RealName(|c.fields|, name) in c.fields then 0 else 1
  {
  }

  lemma {:induction false} FillStep(ctx: Context, fields: seq<Field>, v: Value, n: nat, c: Container)
    requires v.Record? && 0 < n <= |v.values| && n <= |fields|
    ensures Fill(ctx, fields, v, n, c) ==
      Put(Fill(ctx, fields, v, n - 1, c), fields[n - 1].name,
          Present(ctx, fields[n - 1].fieldType, fields[n - 1], v.values[n - 1]))
  {
  }

  lemma NothingFiled(ctx: Context, fields: seq<Field>, v: Value, c: Container)
    requires v.Record?
    ensures Fill(ctx, fields, v, 0, c) == c
  {
  }

  /** A collision costs a place in the order. */
  lemma {:induction false} OrderLength(ctx: Context, fields: seq<Field>, v: Value, n: nat, c: Container)
    requires v.Record? && n <= |v.values| && n <= |fields|
    ensures |Fill(ctx, fields, v, n, c).order| <= |c.order| + n
    ensures |Fill(ctx, fields, v, n, c).order| == |c.order| + n <==> NamesNew(c.fields.Keys, fields, n)
  {
    hide Present, RealName, Put, Fill, NamesNew, UsedAfter;
    if n == 0 {
      NothingFiled(ctx, fields, v, c);
      NoNames(c.fields.Keys, fields);
    } else {
      var earlier, f := Fill(ctx, fields, v, n - 1, c), fields[n - 1];
      OrderLength(ctx, fields, v, n - 1, c);
      NameTaken(ctx, fields, v, n - 1, c);
      FillStep(ctx, fields, v, n, c);
      OrderPut(earlier, f.name, Present(ctx, f.fieldType, f, v.values[n - 1]));
    }
  }

  /** Filing under a new name leaves what the order lists before it alone. */
  lemma {:induction false} ErasePut(c: Container, name: string, value: Dynamic, n: nat)
    requires Tidy(c) && RealName(|c.fields|, name) !in c.fields && n <= |c.order|
    ensures EraseFields(Put(c, name, value), n) == EraseFields(c, n)
  {
    hide Erase, RealName;
    if n > 0 {
      ErasePut(c, name, value, n - 1);
    }
  }

  lemma {:induction false} TidyPut(c: Container, name: string, value: Dynamic)
    requires Tidy(c) && RealName(|c.fields|, name) !in c.fields
    ensures Tidy(Put(c, name, value)) && Erased(Put(c, name, value)) == Erased(c) + [Erase(value)]
  {
    hide Erase, RealName, EraseFields;
    ErasePut(c, name, value, |c.order|);
    LastErased(Put(c, name, value), |c.order|);
  }

  lemma {:induction false} LastErased(c: Container, n: nat)
    requires n < |c.order| && c.order[n] in c.fields
    ensures EraseFields(c, n + 1) == EraseFields(c, n) + [Erase(c.fields[c.order[n]])]
  {
    hide Erase;
  }

  // ---- what the interpreter's view keeps ----

  /** No record in the value `v` of a field of type `t` has a structure that files two fields under one
      name. */
  ghost predicate Clear(ctx: Context, t: FieldType, f: Field, v: Value)
    decreases v
  {
    match v
    case Many(values) => forall i | 0 <= i < |values| :: Clear(ctx, f.arrayType, f, values[i])
    case Record(values) =>
      && f.typeName in ctx.structures && |values| == |ctx.structures[f.typeName]|
      && NamesNew({}, ctx.structures[f.typeName], |values|)
      && forall i | 0 <= i < |values| ::
           var field := ctx.structures[f.typeName][i]; Clear(ctx, field.fieldType, field, values[i])
    case _ => true
  }

  ghost predicate AllClear(ctx: Context, fields: seq<Field>, values: seq<Value>) {
    && |values| == |fields|
    && forall i | 0 <= i < |values| :: Clear(ctx, fields[i].fieldType, fields[i], values[i])
  }

  /** The first `n` values as they come back out of the interpreter's view. */
  ghost function Views(ctx: Context, fields: seq<Field>, values: seq<Value>, n: nat): (r: seq<Value>)
    requires n <= |fields| && n <= |values|
    ensures |r| == n && forall i :: 0 <= i < n ==>
      r[i] == Erase(Present(ctx, fields[i].fieldType, fields[i], values[i]))
  {
    if n == 0 then []
    else
      var f := fields[n - 1];
      Views(ctx, fields, values, n - 1) + [Erase(Present(ctx, f.fieldType, f, values[n - 1]))]
  }

  /** Each value comes back unchanged. */
  ghost predicate ComeThrough(ctx: Context, fields: seq<Field>, values: seq<Value>) {
    |values| == |fields| && Views(ctx, fields, values, |values|) == values
  }

  /** Fields filed under new names appear in order. */
  lemma {:induction false} FieldsInOrder(ctx: Context, fields: seq<Field>, v: Value, n: nat, c: Container)
    requires v.Record? && n <= |v.values| && n <= |fields| && Tidy(c) && NamesNew(c.fields.Keys, fields, n)
    ensures Tidy(Fill(ctx, fields, v, n, c))
    ensures Erased(Fill(ctx, fields, v, n, c)) == Erased(c) + Views(ctx, fields, v.values, n)
  {
    hide Present, Erase, RealName, Tidy, Put, Erased, Fill, NamesNew, UsedAfter;
    if n == 0 {
      NothingFiled(ctx, fields, v, c);
      assert Erased(c) + [] == Erased(c);
    } else {
      var earlier, f, value := Fill(ctx, fields, v, n - 1, c), fields[n - 1], v.values[n - 1];
      NameTaken(ctx, fields, v, n - 1, c);
      FieldsInOrder(ctx, fields, v, n - 1, c);
      FillStep(ctx, fields, v, n, c);
      TidyPut(earlier, f.name, Present(ctx, f.fieldType, f, value));
    }
  }

  /** A container shows the values exactly when every field's name was new and every value comes through. */
  lemma {:induction false} RecordShown(ctx: Context, fields: seq<Field>, values: seq<Value>, c: Container)
    requires Tidy(c) && |values| == |fields|
    ensures Erased(Fill(ctx, fields, Record(values), |fields|, c)) == Erased(c) + values <==>
      NamesNew(c.fields.Keys, fields, |fields|) && ComeThrough(ctx, fields, values)
  {
    hide Fill, NamesNew, Tidy, UsedAfter, EraseFields, Views;
    OrderLength(ctx, fields, Record(values), |fields|, c);
    if NamesNew(c.fields.Keys, fields, |fields|) {
      FieldsInOrder(ctx, fields, Record(values), |fields|, c);
      SameTail(Erased(c), Views(ctx, fields, values, |fields|), values);
    }
  }

  lemma SameTail(front: seq<Value>, a: seq<Value>, b: seq<Value>)
    ensures front + a == front + b <==> a == b
  {
    if front + a == front + b {
      assert a == (front + a)[|front|..] == (front + b)[|front|..] == b;
    }
  }

  lemma {:induction false} EraseSimple(ctx: Context, lib: Library, t: FieldType, f: Field, v: Value)
    requires t != Array && t != Struct && Known(ctx, t, f, v) && Typed(lib, CxxTypeOf(t, f), v)
    ensures Erase(Present(ctx, t, f, v)) == v && Clear(ctx, t, f, v)
  {
    hide InRange, Fill, EraseFields, EraseElements, PresentElements;
    if t == PolymorphicReference {
      ErasePolymorphic(ctx.enums[f.typeName], v.selector, v.id);
      hide PolymorphicDataOf;
    }
  }

  /** The selector decides what becomes of the id, and the id is still there. */
  lemma ErasePolymorphic(names: map<int, string>, selector: int, id: int)
    ensures IdOf(PolymorphicDataOf(names, selector, id)) == id
  {
    hide DefName;
  }

  /** A value that the interpreter reads shows what was compiled if and only if no record in it has a
      structure with colliding names. */
  lemma {:induction false} ErasePresent(ctx: Context, lib: Library, t: FieldType, f: Field, v: Value)
    requires Compiles(ctx, lib) && (t == Array ==> f.arrayType != Array)
    requires Known(ctx, t, f, v) && Typed(lib, CxxTypeOf(t, f), v)
    ensures Erase(Present(ctx, t, f, v)) == v <==> Clear(ctx, t, f, v)
    decreases v, 1
  {
    hide Compiles, Fill, EraseFields, EraseElements, PresentElements, InRange;
    if t == Array {
      ErasedElements(ctx, f, v, |v.values|);
      assert v.values[..|v.values|] == v.values;
      forall i | 0 <= i < |v.values|
        ensures Erase(Present(ctx, f.arrayType, f, v.values[i])) == v.values[i] <==>
          Clear(ctx, f.arrayType, f, v.values[i])
      {
        ErasePresent(ctx, lib, f.arrayType, f, v.values[i]);
      }
      ElementsShown(ctx, f, v);
    } else if t == Struct {
      EraseStruct(ctx, lib, f, v);
    } else {
      EraseSimple(ctx, lib, t, f, v);
    }
  }

  /** The elements as they come back. */
  lemma {:induction false} ErasedElements(ctx: Context, f: Field, v: Value, n: nat)
    requires v.Many? && n <= |v.values|
    ensures var r := EraseElements(ArrayValue(PresentElements(ctx, f, v, n)), n);
      forall i :: 0 <= i < n ==> r[i] == Erase(Present(ctx, f.arrayType, f, v.values[i]))
  {
    hide Present, Erase;
    if n > 0 {
      ErasedElements(ctx, f, v, n - 1);
      EraseElementsPrefix(PresentElements(ctx, f, v, n - 1), [Present(ctx, f.arrayType, f, v.values[n - 1])], n - 1);
    }
  }

  lemma {:induction false} EraseElementsPrefix(values: seq<Dynamic>, more: seq<Dynamic>, n: nat)
    requires n <= |values|
    ensures EraseElements(ArrayValue(values + more), n) == EraseElements(ArrayValue(values), n)
  {
    hide Erase;
    if n > 0 {
      EraseElementsPrefix(values, more, n - 1);
    }
  }

  lemma {:induction false} ElementsShown(ctx: Context, f: Field, v: Value)
    requires v.Many?
    requires var r := EraseElements(ArrayValue(PresentElements(ctx, f, v, |v.values|)), |v.values|);
      forall i :: 0 <= i < |v.values| ==> r[i] == Erase(Present(ctx, f.arrayType, f, v.values[i]))
    requires forall i | 0 <= i < |v.values| ::
      Erase(Present(ctx, f.arrayType, f, v.values[i])) == v.values[i] <==> Clear(ctx, f.arrayType, f, v.values[i])
    ensures Erase(Present(ctx, Array, f, v)) == v <==> Clear(ctx, Array, f, v)
  {
    hide EraseElements, PresentElements;
    var r := EraseElements(ArrayValue(PresentElements(ctx, f, v, |v.values|)), |v.values|);
    assert Erase(Present(ctx, Array, f, v)) == Many(r);
    if r == v.values {
      forall i | 0 <= i < |v.values|
        ensures Clear(ctx, f.arrayType, f, v.values[i])
      {
        assert r[i] == v.values[i];
      }
    }
  }

  lemma {:induction false} EraseStruct(ctx: Context, lib: Library, f: Field, v: Value)
    requires Compiles(ctx, lib) && Known(ctx, Struct, f, v) && Typed(lib, StructOf(f.typeName), v)
    ensures Erase(Present(ctx, Struct, f, v)) == v <==> Clear(ctx, Struct, f, v)
    decreases v, 0, 4
  {
    hide Compiles, Fill, EraseFields, Typed, Known, NamesNew, Clear, ComeThrough, AllClear, FieldsKnown;
    InDictionary(ctx, lib, f, v);
    var fields := ctx.structures[f.typeName];
    FieldsErase(ctx, lib, f.typeName, v);
    EmptyIsTidy();
    RecordShown(ctx, fields, v.values, EMPTY);
    assert [] + v.values == v.values;
    ClearRecord(ctx, f, v);
  }

  lemma ClearRecord(ctx: Context, f: Field, v: Value)
    requires v.Record? && f.typeName in ctx.structures && |v.values| == |ctx.structures[f.typeName]|
    ensures Clear(ctx, Struct, f, v) <==>
      NamesNew({}, ctx.structures[f.typeName], |v.values|) && AllClear(ctx, ctx.structures[f.typeName], v.values)
  {
    hide NamesNew;
  }

  lemma EmptyIsTidy()
    ensures Tidy(EMPTY) && Erased(EMPTY) == [] && EMPTY.fields.Keys == {}
  {
  }

  lemma {:induction false} InDictionary(ctx: Context, lib: Library, f: Field, v: Value)
    requires Compiles(ctx, lib) && Known(ctx, Struct, f, v) && Typed(lib, StructOf(f.typeName), v)
    ensures v.Record? && f.typeName in ctx.structures && f.typeName in lib.structs
    ensures Body(ctx, f.typeName) == ctx.structures[f.typeName] && |v.values| == |ctx.structures[f.typeName]|
    ensures FieldsKnown(ctx, Body(ctx, f.typeName), v.values)
  {
    hide Library.Valid;
    MembersAreFields(ctx, lib, f.typeName);
  }

  /** Each member of a record, by itself. */
  lemma {:induction false} FieldsErase(ctx: Context, lib: Library, name: string, v: Value)
    requires Compiles(ctx, lib) && name in lib.structs && Typed(lib, StructOf(name), v)
    requires name in ctx.structures || name in ctx.defs
    requires FieldsKnown(ctx, Body(ctx, name), v.values)
    ensures ComeThrough(ctx, Body(ctx, name), v.values) <==> AllClear(ctx, Body(ctx, name), v.values)
    decreases v, 0, 2
  {
    hide Compiles, CxxTypeOf, Library.Valid, Library.Usable, Typed, Known, Clear, Views, Erase, Present;
    RecordTyped(lib, name, v);
    var fields := Body(ctx, name);
    MembersAreFields(ctx, lib, name);
    forall i | 0 <= i < |v.values|
      ensures Erase(Present(ctx, fields[i].fieldType, fields[i], v.values[i])) == v.values[i] <==>
        Clear(ctx, fields[i].fieldType, fields[i], v.values[i])
    {
      FieldErases(ctx, lib, name, v, i);
    }
    var views := Views(ctx, fields, v.values, |v.values|);
    if views == v.values {
      forall i | 0 <= i < |v.values|
        ensures Clear(ctx, fields[i].fieldType, fields[i], v.values[i])
      {
        assert views[i] == v.values[i];
      }
    }
  }

  lemma {:induction false} FieldErases(ctx: Context, lib: Library, name: string, v: Value, i: nat)
    requires Compiles(ctx, lib) && name in lib.structs && Typed(lib, StructOf(name), v)
    requires name in ctx.structures || name in ctx.defs
    requires FieldsKnown(ctx, Body(ctx, name), v.values) && i < |v.values| == |Body(ctx, name)|
    ensures var f := Body(ctx, name)[i];
      Erase(Present(ctx, f.fieldType, f, v.values[i])) == v.values[i] <==> Clear(ctx, f.fieldType, f, v.values[i])
    decreases v, 0, 1
  {
    hide Compiles, Typed, CxxTypeOf, Library.Valid, Library.Usable, Known, Clear, Erase, Present;
    RecordTyped(lib, name, v);
    var f := Body(ctx, name)[i];
    MemberTyped(lib, name, v, i);
    MemberIsField(ctx, lib, name, i);
    MemberErases(ctx, lib, f, v, i);
  }

  lemma RecordTyped(lib: Library, name: string, v: Value)
    requires Typed(lib, StructOf(name), v)
    ensures v.Record? && name in lib.structs && |v.values| == |lib.structs[name].members|
  {
  }

  lemma MemberTyped(lib: Library, name: string, v: Value, i: nat)
    requires Typed(lib, StructOf(name), v) && i < |v.values|
    ensures name in lib.structs && i < |lib.structs[name].members|
    ensures Typed(lib, lib.structs[name].members[i], v.values[i])
  {
  }

  lemma {:induction false} MemberErases(ctx: Context, lib: Library, f: Field, v: Value, i: nat)
    requires Compiles(ctx, lib) && v.Record? && i < |v.values| && Declarable(f)
    requires Known(ctx, f.fieldType, f, v.values[i]) && Typed(lib, CxxTypeOf(f.fieldType, f), v.values[i])
    ensures Erase(Present(ctx, f.fieldType, f, v.values[i])) == v.values[i] <==> Clear(ctx, f.fieldType, f, v.values[i])
    decreases v, 0, 0
  {
    hide Compiles, Present, Erase, Typed, Known, Clear;
    ErasePresent(ctx, lib, f.fieldType, f, v.values[i]);
  }
  // ---- a value that loses something, and one that is refused ----

  const NUMBER: Field := Field(UInt32, UInt32, "", "")

  lemma OneErased(c: Container, a: int)
    requires |c.order| == 1 && c.order[0] in c.fields && c.fields[c.order[0]] == UnsignedValue(a)
    ensures Erased(c) == [Integer(a)]
  {
    assert EraseFields(c, 1) == EraseFields(c, 0) + [Integer(a)];
  }

  lemma NumberShown(ctx: Context, f: Field, n: int)
    ensures Present(ctx, UInt32, f, Integer(n)) == UnsignedValue(n)
  {
  }

  lemma OneFiled(ctx: Context, fields: seq<Field>, values: seq<Value>, c: Container)
    requires |fields| >= 1 && |values| >= 1
    ensures Fill(ctx, fields, Record(values), 1, c) ==
      Put(c, fields[0].name, Present(ctx, fields[0].fieldType, fields[0], values[0]))
  {
    hide Put, Present;
    FillStep(ctx, fields, Record(values), 1, c);
    NothingFiled(ctx, fields, Record(values), c);
  }

  /** A structure whose first field has the name that its unnamed second field is given keeps only the
      second, though the row around it has names of its own. */
  lemma UnnamedFieldTakesName(a: int, b: int)
    ensures var fields := [NUMBER.(name := "unk_2"), NUMBER];
      var ctx := Context(map["Pair" := fields], map[], map[]);
      Erase(Present(ctx, Struct, Field(Struct, UInt32, "Pair", "pair"), Record([Integer(a), Integer(b)])))
        == Record([Integer(b)])
  {
    hide Fill, Put, EraseFields;
    var fields := [NUMBER.(name := "unk_2"), NUMBER];
    var ctx := Context(map["Pair" := fields], map[], map[]);
    var values := [Integer(a), Integer(b)];
    OneFiled(ctx, fields, values, EMPTY);
    FillStep(ctx, fields, Record(values), 2, EMPTY);
    NumberShown(ctx, fields[0], a);
    NumberShown(ctx, fields[1], b);
    TakenName(a, b);
  }

  lemma TakenName(a: int, b: int)
    ensures Erased(Put(Put(EMPTY, "unk_2", UnsignedValue(a)), "", UnsignedValue(b))) == [Integer(b)]
  {
    hide EraseFields;
    var one := Put(EMPTY, "unk_2", UnsignedValue(a));
    assert one.fields == map["unk_2" := UnsignedValue(a)] && one.order == ["unk_2"];
    assert RealName(1, "") == "unk_2" by {
      assert Decimal(2) == "2";
    }
    var c := Put(one, "", UnsignedValue(b));
    assert c.order == ["unk_2"] && c.fields["unk_2"] == UnsignedValue(b);
    OneErased(c, b);
  }

  /** A key to a name that is no def is read by the generated code and refused by the interpreter. */
  lemma UnknownKeyIsRefused(ctx: Context, lib: Library, f: Field, data: seq<byte>, at: nat, swap: bool)
    requires lib.Valid() && f.typeName !in ctx.defs && at + 4 <= |data|
    ensures var key := CompiledRead(lib, ForeignKey, f, data, at, swap);
      key.Some? && !Known(ctx, ForeignKey, f, key.value.0)
  {
  }
}
