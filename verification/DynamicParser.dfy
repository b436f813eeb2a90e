/** The interpreter of def records: `parseField` and `parseStructureIntoRecord`. */
module DynamicParser {
  import opened Bytes
  import opened CompiledFormat
  import opened CompiledReader
  import opened Directives
  import opened DynamicRecord
  import opened FieldFormat
  import opened Numbers
  import opened Streams

  /** The structure that a field holds, or that the elements of an array are, is declared. */
  ghost predicate Resolves(ctx: Context, t: FieldType, f: Field)
    requires t == Array ==> f.arrayType != Array
    decreases if t == Array then 1 else 0
  {
    match t
    case Struct => f.typeName in ctx.structures
    case Array => Resolves(ctx, f.arrayType, f)
    case _ => true
  }

  /** Every name the interpreter looks up while it reads the value `v` is declared as what it looks for: the
      enums, structures and defs of fields, and the defs that the selectors of references name. */
  ghost predicate Known(ctx: Context, t: FieldType, f: Field, v: CompiledFormat.Value)
    decreases v
  {
    match v
    case Integer(_) => (t == Enum ==> f.typeName in ctx.enums) && (t == ForeignKey ==> f.typeName in ctx.defs)
    case Reference(selector, _) => f.typeName in ctx.enums && NamesKnownDef(ctx, ctx.enums[f.typeName], selector)
    case Many(values) => forall i | 0 <= i < |values| :: Known(ctx, f.arrayType, f, values[i])
    case Record(values) =>
      && f.typeName in ctx.structures && |values| <= |ctx.structures[f.typeName]|
      && forall i | 0 <= i < |values| ::
           var field := ctx.structures[f.typeName][i]; Known(ctx, field.fieldType, field, values[i])
    case _ => true
  }

  /** The selector of a reference names no def, or one that is declared. */
  ghost predicate NamesKnownDef(ctx: Context, names: map<int, string>, selector: int) {
    selector in names ==> DefName(names[selector]) == "NULL" || DefName(names[selector]) in ctx.defs
  }

  ghost predicate AllKnown(ctx: Context, f: Field, values: seq<CompiledFormat.Value>) {
    forall i | 0 <= i < |values| :: Known(ctx, f.arrayType, f, values[i])
  }

  ghost predicate FieldsKnown(ctx: Context, fields: seq<Field>, values: seq<CompiledFormat.Value>) {
    && |values| <= |fields|
    && forall i | 0 <= i < |values| :: Known(ctx, fields[i].fieldType, fields[i], values[i])
  }

  ghost predicate AllResolve(ctx: Context, fields: seq<Field>)
    requires AllDeclarable(fields)
  {
    forall i :: 0 <= i < |fields| ==> assert Declarable(fields[i]); Resolves(ctx, fields[i].fieldType, fields[i])
  }

  /** Whether the interpreter, reading a field, came out as the generated code would, or refused it because a
      name that it looked up is not known. */
  ghost predicate Agrees(stream: InputStream, ctx: Context, t: FieldType, f: Field,
                         compiled: Option<(CompiledFormat.Value, nat)>, r: Option<Dynamic>)
    reads stream
  {
    && stream.Valid() && (r.Some? <==> compiled.Some? && Known(ctx, t, f, compiled.value.0))
    && (r.Some? ==> r.value == Present(ctx, t, f, compiled.value.0) && stream.ptr == compiled.value.1)
  }

  /** The interpreter reads a field if and only if the bytes from `at` on are a value of its type all of whose
      names are known; it then shows that value, and goes on behind it. */
  ghost predicate FromDisk(stream: InputStream, ctx: Context, t: FieldType, f: Field, at: nat, r: Option<Dynamic>)
    reads stream
  {
    && (r.Some? <==> exists v: CompiledFormat.Value, end: nat ::
          OnDisk(ctx, t, f, v, stream.data, at, end, stream.swapEndian) && Known(ctx, t, f, v))
    && (r.Some? ==> exists v: CompiledFormat.Value ::
          && OnDisk(ctx, t, f, v, stream.data, at, stream.ptr, stream.swapEndian)
          && Known(ctx, t, f, v) && r.value == Present(ctx, t, f, v))
  }

  lemma {:induction false} AgreesFromDisk(stream: InputStream, ctx: Context, lib: Library, t: FieldType, f: Field,
                                          at: nat, r: Option<Dynamic>)
    requires Compiles(ctx, lib) && lib.Valid() && (t == Array ==> f.arrayType != Array)
    requires lib.Usable(CxxTypeOf(t, f)) && at <= |stream.data|
    requires Agrees(stream, ctx, t, f, CompiledRead(lib, t, f, stream.data, at, stream.swapEndian), r)
    ensures FromDisk(stream, ctx, t, f, at, r)
  {
    hide TakeType, Compiles, OnDisk, CxxTypeOf, Library.Usable, Library.Valid, CompiledRead, Known, Present;
    var compiled := CompiledRead(lib, t, f, stream.data, at, stream.swapEndian);
    forall v: CompiledFormat.Value, end: nat
      ensures compiled == Some((v, end)) <==> OnDisk(ctx, t, f, v, stream.data, at, end, stream.swapEndian)
    {
      ReadIffOnDisk(ctx, lib, t, f, v, stream.data, at, end, stream.swapEndian);
    }
    if compiled.Some? {
      assert OnDisk(ctx, t, f, compiled.value.0, stream.data, at, compiled.value.1, stream.swapEndian);
    }
  }

  /** `parseField`, except for the types that hold others. */
  method ParseSimple(stream: InputStream, ctx: Context, ghost lib: Library, t: FieldType,
                     f: Field) returns (r: Option<Dynamic>)
    requires stream.Valid() && Compiles(ctx, lib) && t != Array && t != Struct && t != PolymorphicReference
    modifies stream`ptr
    ensures Agrees(stream, ctx, t, f, CompiledRead(lib, t, f, stream.data, old(stream.ptr), stream.swapEndian), r)
  {
    hide TakeInteger, TakeArithmetic, TakeString, Compiles;
    LibraryValid(ctx, lib);
    if t in {Int8, Int16, Int32, Int64, UInt8, UInt16, UInt32, UInt64} {
      r := ParseNumber(stream, ctx, lib, t, f);
      return;
    }
    match t {
      case Float =>
        var bytes := stream.ReadFloat(4);
        r := if bytes == None then None else Some(DoubleValue(bytes.value));
      case Enum =>
        if f.typeName !in ctx.enums {
          return None;
        }
        var n := ReadInteger(stream, 4, true);
        r := if n == None then None else Some(EnumValue(f.typeName, n.value));
      case String =>
        var s := stream.ReadString();
        r := if s == None then None else Some(StringValue(s.value));
      case ForeignKey =>
        var id := ReadInteger(stream, 4, false);
        if id == None || f.typeName !in ctx.defs {
          return None;
        }
        r := Some(KeyValue(f.typeName, id.value));
      case Boolean =>
        var n := ReadInteger(stream, 1, false);
        r := if n == None then None else Some(BoolValue(n.value != 0));
      case AssetReference =>
        var id := ReadInteger(stream, 4, false);
        r := if id == None then None else Some(AssetValue(id.value));
    }
  }

  method ParseNumber(stream: InputStream, ctx: Context, ghost lib: Library, t: FieldType,
                     f: Field) returns (r: Option<Dynamic>)
    requires stream.Valid() && Compiles(ctx, lib) && t in {Int8, Int16, Int32, Int64, UInt8, UInt16, UInt32, UInt64}
    modifies stream`ptr
    ensures Agrees(stream, ctx, t, f, CompiledRead(lib, t, f, stream.data, old(stream.ptr), stream.swapEndian), r)
  {
    hide TakeInteger, TakeArithmetic, TakeString, Compiles;
    LibraryValid(ctx, lib);
    match t {
      case Int8 => r := ParseInteger(stream, 1, true);
      case Int16 => r := ParseInteger(stream, 2, true);
      case Int32 => r := ParseInteger(stream, 4, true);
      case Int64 => r := ParseInteger(stream, 8, true);
      case UInt8 => r := ParseInteger(stream, 1, false);
      case UInt16 => r := ParseInteger(stream, 2, false);
      case UInt32 => r := ParseInteger(stream, 4, false);
      case UInt64 => r := ParseInteger(stream, 8, false);
    }
  }

  method ParseInteger(stream: InputStream, size: nat, signed: bool) returns (r: Option<Dynamic>)
    requires stream.Valid()
    modifies stream`ptr
    ensures stream.Valid()
    ensures var n := TakeInteger(stream.data, old(stream.ptr), size, signed, stream.swapEndian);
      && (r.Some? <==> n.Some?)
      && (r.Some? ==> stream.ptr == old(stream.ptr) + size)
      && (r.Some? ==> r.value == if signed then SignedValue(n.value) else UnsignedValue(n.value))
  {
    var n := ReadInteger(stream, size, signed);
    r := if n == None then None else Some(if signed then SignedValue(n.value) else UnsignedValue(n.value));
  }

  /** A selector, and an id that is a key, a bare number or nothing, as the selector's name says. */
  method ParseReference(stream: InputStream, ctx: Context, ghost lib: Library, f: Field) returns (r: Option<Dynamic>)
    requires stream.Valid() && Compiles(ctx, lib)
    modifies stream`ptr
    ensures Agrees(stream, ctx, PolymorphicReference, f,
                   CompiledRead(lib, PolymorphicReference, f, stream.data, old(stream.ptr), stream.swapEndian), r)
  {
    hide TakeInteger, DefName, Compiles;
    LibraryValid(ctx, lib);
    if f.typeName !in ctx.enums {
      return None;
    }
    var selector := ReadInteger(stream, 4, true);
    if selector == None {
      return None;
    }
    var data := ParsePolymorphicData(stream, ctx, ctx.enums[f.typeName], selector.value);
    r := if data == None then None else Some(PolymorphicValue(f.typeName, selector.value, data.value));
  }

  method ParsePolymorphicData(stream: InputStream, ctx: Context, names: map<int, string>,
                              selector: int) returns (r: Option<PolymorphicData>)
    requires stream.Valid()
    modifies stream`ptr
    ensures stream.Valid()
    ensures var id := TakeInteger(stream.data, old(stream.ptr), 4, false, stream.swapEndian);
      && (r.Some? <==> id.Some? && NamesKnownDef(ctx, names, selector))
      && (r.Some? ==> r.value == PolymorphicDataOf(names, selector, id.value) && stream.ptr == old(stream.ptr) + 4)
  {
    hide TakeInteger, DefName;
    if selector !in names {
      var id := ReadInteger(stream, 4, false);
      return if id == None then None else Some(IdData(id.value));
    }
    var defName := DefName(names[selector]);
    if defName == "NULL" {
      var id := ReadInteger(stream, 4, false);
      return if id == None then None else Some(if id.value == 0 then NoData else IdData(id.value));
    }
    if defName !in ctx.defs {
      return None;
    }
    var id := ReadInteger(stream, 4, false);
    r := if id == None then None else Some(KeyData(defName, id.value));
  }

  /** `parseField`. */
  method ParseField(stream: InputStream, ctx: Context, ghost lib: Library, t: FieldType,
                    f: Field) returns (r: Option<Dynamic>)
    requires stream.Valid() && Compiles(ctx, lib) && (t == Array ==> f.arrayType != Array)
    requires lib.Usable(CxxTypeOf(t, f))
    modifies stream`ptr
    ensures Agrees(stream, ctx, t, f, CompiledRead(lib, t, f, stream.data, old(stream.ptr), stream.swapEndian), r)
    ensures FromDisk(stream, ctx, t, f, old(stream.ptr), r)
    decreases |stream.data| - stream.ptr, lib.Depth(CxxTypeOf(t, f)), 1
  {
    hide FromDisk, TakeType, Present, Known, Compiles, Library.Valid;
    LibraryValid(ctx, lib);
    ghost var at := stream.ptr;
    if t == Array {
      r := ParseArray(stream, ctx, lib, f);
    } else if t == Struct {
      r := ParseStruct(stream, ctx, lib, f);
    } else if t == PolymorphicReference {
      r := ParseReference(stream, ctx, lib, f);
    } else {
      r := ParseSimple(stream, ctx, lib, t, f);
    }
    AgreesFromDisk(stream, ctx, lib, t, f, at, r);
  }

  method ParseArray(stream: InputStream, ctx: Context, ghost lib: Library, f: Field) returns (r: Option<Dynamic>)
    requires stream.Valid() && Compiles(ctx, lib) && f.arrayType != Array
    requires lib.Usable(CxxTypeOf(Array, f))
    modifies stream`ptr
    ensures Agrees(stream, ctx, Array, f, CompiledRead(lib, Array, f, stream.data, old(stream.ptr),
      stream.swapEndian), r)
    decreases |stream.data| - stream.ptr, lib.Depth(CxxTypeOf(Array, f)), 0
  {
    hide TakeElements, PresentElements, TakeUInt32, Compiles, Resolves;
    LibraryValid(ctx, lib);
    var length := stream.ReadUInt32();
    if length == None {
      return None;
    }
    var values := ParseElements(stream, ctx, lib, f, length.value);
    r := if values == None then None else Some(ArrayValue(values.value));
  }

  /** The elements of an array, one after another. */
  method ParseElements(stream: InputStream, ctx: Context, ghost lib: Library, f: Field,
                       length: nat) returns (r: Option<seq<Dynamic>>)
    requires stream.Valid() && Compiles(ctx, lib) && f.arrayType != Array
    requires lib.Usable(CxxTypeOf(f.arrayType, f))
    modifies stream`ptr
    ensures stream.Valid()
    ensures var e := TakeElements(lib, CxxTypeOf(f.arrayType, f), length, stream.data, old(stream.ptr),
      stream.swapEndian);
      && (r.Some? <==> e.Some? && AllKnown(ctx, f, e.value.0))
      && (r.Some? ==> r.value == PresentElements(ctx, f, Many(e.value.0), length) && stream.ptr == e.value.1)
    decreases |stream.data| - stream.ptr, lib.Depth(CxxTypeOf(f.arrayType, f)) + 1
  {
    hide TakeElements, TakeType, Present, PresentElements, Compiles, Known;
    ghost var element := CxxTypeOf(f.arrayType, f);
    ghost var data, at, swap := stream.data, stream.ptr, stream.swapEndian;
    ghost var taken: seq<CompiledFormat.Value> := [];
    var values := [];
    var i := 0;
    LibraryValid(ctx, lib);
    NoElements(lib, element, data, at, swap);
    NothingPresent(ctx, f);
    while i < length
      invariant 0 <= i <= length && stream.Valid() && at <= stream.ptr
      invariant |taken| == i && TakeElements(lib, element, i, data, at, swap) == Some((taken, stream.ptr))
      invariant values == PresentElements(ctx, f, Many(taken), i) && AllKnown(ctx, f, taken)
    {
      ElementsStep(lib, element, i, data, at, swap);
      ghost var next := TakeType(lib, element, data, stream.ptr, swap);
      var value := ParseField(stream, ctx, lib, f.arrayType, f);
      if value == None {
        if next == None {
          ElementsEnd(lib, element, i + 1, length, data, at, swap);
        } else {
          ElementsKept(lib, element, i + 1, length, data, at, swap);
          assert TakeElements(lib, element, i + 1, data, at, swap).value.0[i] == next.value.0;
        }
        return None;
      }
      PresentOneMore(ctx, f, taken, next.value.0);
      taken := taken + [next.value.0];
      values := values + [value.value];
      i := i + 1;
    }
    r := Some(values);
  }

  lemma NothingPresent(ctx: Context, f: Field)
    ensures PresentElements(ctx, f, Many([]), 0) == []
  {
  }

  /** The view of a prefix does not depend on what follows it. */
  lemma {:induction false} PresentPrefix(ctx: Context, f: Field, values: seq<CompiledFormat.Value>,
                                         more: seq<CompiledFormat.Value>, n: nat)
    requires n <= |values|
    ensures PresentElements(ctx, f, Many(values + more), n) == PresentElements(ctx, f, Many(values), n)
  {
    hide Present;
    if n > 0 {
      PresentPrefix(ctx, f, values, more, n - 1);
    }
  }

  lemma {:induction false} PresentOneMore(ctx: Context, f: Field, values: seq<CompiledFormat.Value>,
                                          value: CompiledFormat.Value)
    ensures PresentElements(ctx, f, Many(values + [value]), |values| + 1) ==
      PresentElements(ctx, f, Many(values), |values|) + [Present(ctx, f.arrayType, f, value)]
  {
    hide Present;
    PresentPrefix(ctx, f, values, [value], |values|);
  }

  /** A structure is read by its statements, and known if it is declared and its fields are known. */
  lemma {:induction false} StructTaken(ctx: Context, lib: Library, f: Field, data: seq<byte>, at: nat, swap: bool)
    requires Compiles(ctx, lib) && lib.Valid() && lib.Usable(StructOf(f.typeName)) && at <= |data|
    ensures var taken := TakeStatements(lib, f.typeName, |lib.structs[f.typeName].program|, data, at, swap);
      var compiled := TakeType(lib, StructOf(f.typeName), data, at, swap);
      && (compiled.Some? <==> taken.Some?)
      && (taken.Some? ==> compiled == Some((Record(taken.value.0), taken.value.1)))
      && (taken.Some? && f.typeName !in ctx.structures ==> !Known(ctx, Struct, f, Record(taken.value.0)))
      && (taken.Some? && f.typeName in ctx.structures ==>
            var fields, values := ctx.structures[f.typeName], taken.value.0;
            && |values| == |fields|
            && (Known(ctx, Struct, f, Record(values)) <==> FieldsKnown(ctx, fields, values))
            && Present(ctx, Struct, f, Record(values)) ==
                 StructValue(Fill(ctx, fields, Record(values), |values|, EMPTY)))
  {
    hide TakeStatements, Fill, Compiles;
    if f.typeName in ctx.structures {
      MembersAreFields(ctx, lib, f.typeName);
    }
  }

  method ParseStruct(stream: InputStream, ctx: Context, ghost lib: Library, f: Field) returns (r: Option<Dynamic>)
    requires stream.Valid() && Compiles(ctx, lib) && lib.Usable(StructOf(f.typeName))
    modifies stream`ptr
    ensures Agrees(stream, ctx, Struct, f, TakeType(lib, StructOf(f.typeName), stream.data, old(stream.ptr),
      stream.swapEndian), r)
    decreases |stream.data| - stream.ptr, lib.Depth(StructOf(f.typeName)), 0
  {
    hide TakeType, TakeStatements, Known, FieldsKnown, Present, Fill, Compiles, Library.Valid, InOrder, CxxTypeOf;
    LibraryValid(ctx, lib);
    StructTaken(ctx, lib, f, stream.data, stream.ptr, stream.swapEndian);
    if f.typeName !in ctx.structures {
      return None;
    }
    MembersAreFields(ctx, lib, f.typeName);
    var container := ParseStructure(stream, ctx, lib, f.typeName, ctx.structures[f.typeName], EMPTY);
    r := if container == None then None else Some(StructValue(container.value));
  }

  /** `parseStructureIntoRecord`: the fields in turn, each filed in the container. */
  method ParseStructure(stream: InputStream, ctx: Context, ghost lib: Library, ghost name: string,
                        fields: seq<Field>, record: Container)
    returns (r: Option<Container>)
    requires stream.Valid() && Compiles(ctx, lib) && name in lib.structs && fields == Body(ctx, name)
    requires |lib.structs[name].program| == |fields|
    modifies stream`ptr
    ensures stream.Valid()
    ensures var e := TakeStatements(lib, name, |fields|, stream.data, old(stream.ptr), stream.swapEndian);
      && (r.Some? <==> e.Some? && FieldsKnown(ctx, fields, e.value.0))
      && (r.Some? ==> r.value == Fill(ctx, fields, Record(e.value.0), |fields|, record) && stream.ptr == e.value.1)
    decreases |stream.data| - stream.ptr, 2 * lib.depths[name] + 1
  {
    hide TakeStatements, TakeType, Present, Fill, Compiles, Put, Known;
    ghost var data, at, swap := stream.data, stream.ptr, stream.swapEndian;
    ghost var taken: seq<CompiledFormat.Value> := [];
    LibraryValid(ctx, lib);
    var container := record;
    var i := 0;
    NoStatements(lib, name, data, at, swap);
    NothingFilled(ctx, fields, record);
    while i < |fields|
      invariant 0 <= i <= |fields| && stream.Valid() && at <= stream.ptr
      invariant |taken| == i && TakeStatements(lib, name, i, data, at, swap) == Some((taken, stream.ptr))
      invariant container == Fill(ctx, fields, Record(taken), i, record) && FieldsKnown(ctx, fields, taken)
    {
      MemberIsField(ctx, lib, name, i);
      StatementsStep(lib, name, i, data, at, swap);
      ghost var next := TakeType(lib, lib.structs[name].members[i], data, stream.ptr, swap);
      var value := ParseField(stream, ctx, lib, fields[i].fieldType, fields[i]);
      if value == None {
        if next == None {
          StatementsEnd(lib, name, i + 1, data, at, swap);
        } else {
          StatementsKept(lib, name, i + 1, data, at, swap);
          assert TakeStatements(lib, name, i + 1, data, at, swap).value.0[i] == next.value.0;
        }
        return None;
      }
      FillOneMore(ctx, fields, taken, next.value.0, record);
      container := Put(container, fields[i].name, value.value);
      taken := taken + [next.value.0];
      i := i + 1;
    }
    r := Some(container);
  }

  lemma NothingFilled(ctx: Context, fields: seq<Field>, record: Container)
    ensures Fill(ctx, fields, Record([]), 0, record) == record
  {
  }

  lemma {:induction false} FillPrefix(ctx: Context, fields: seq<Field>, values: seq<CompiledFormat.Value>,
                                      more: seq<CompiledFormat.Value>,
                                      n: nat, record: Container)
    requires n <= |values| && n <= |fields|
    ensures Fill(ctx, fields, Record(values + more), n, record) == Fill(ctx, fields, Record(values), n, record)
  {
    hide Present, Put;
    if n > 0 {
      FillPrefix(ctx, fields, values, more, n - 1, record);
    }
  }

  lemma {:induction false} FillOneMore(ctx: Context, fields: seq<Field>, values: seq<CompiledFormat.Value>,
                                       value: CompiledFormat.Value,
                                       record: Container)
    requires |values| < |fields|
    ensures var f := fields[|values|];
      Fill(ctx, fields, Record(values + [value]), |values| + 1, record) ==
        Put(Fill(ctx, fields, Record(values), |values|, record), f.name, Present(ctx, f.fieldType, f, value))
  {
    hide Present, Put;
    FillPrefix(ctx, fields, values, [value], |values|, record);
  }
}
