/** What a field of each declared type is on disk, byte by byte, and that the generated code reads exactly that. */
module FieldFormat {
  import opened Bytes
  import opened CompiledFormat
  import CompiledReader
  import opened Directives
  import opened DynamicRecord
  import opened Numbers
  import opened Streams

  type Value = CompiledFormat.Value

  // ---- numbers ----

  /** The number in the `size` bytes at `at`: the first is the highest if the stream swaps, and else the
      lowest. */
  ghost function Unsigned(data: seq<byte>, at: nat, size: nat, swap: bool): nat
    requires at + size <= |data|
    decreases size
  {
    if size == 0 then 0
    else if swap then 0x100 * Unsigned(data, at, size - 1, swap) + data[at + size - 1] as int
    else data[at] as int + 0x100 * Unsigned(data, at + 1, size - 1, swap)
  }

  /** In two's complement: the highest bit of the highest byte makes a number negative. */
  ghost function Signed(data: seq<byte>, at: nat, size: nat, swap: bool): int
    requires size > 0 && at + size <= |data|
  {
    var n := Unsigned(data, at, size, swap);
    if data[if swap then at else at + size - 1] >= 0x80 then n - Power256(size) else n
  }

  // ---- fields ----

  /** The bytes from `at` to `end` are the value `v` of a field of type `t`. */
  ghost predicate OnDisk(ctx: Context, t: FieldType, f: Field, v: Value, data: seq<byte>, at: nat, end: nat, swap: bool)
    decreases v, 1
  {
    && at <= end <= |data|
    && match t
       case UInt8 => end == at + 1 && v == Integer(data[at] as int)
       case UInt16 => end == at + 2 && v == Integer(Unsigned(data, at, 2, swap))
       case UInt32 => end == at + 4 && v == Integer(Unsigned(data, at, 4, swap))
       case UInt64 => end == at + 8 && v == Integer(Unsigned(data, at, 8, swap))
       case Int8 => end == at + 1 && v == Integer(Signed(data, at, 1, swap))
       case Int16 => end == at + 2 && v == Integer(Signed(data, at, 2, swap))
       case Int32 => end == at + 4 && v == Integer(Signed(data, at, 4, swap))
       case Int64 => end == at + 8 && v == Integer(Signed(data, at, 8, swap))
       case Float =>
         // Floats have the other byte order.
         && end == at + 4
         && v == Real(if swap then [data[at], data[at + 1], data[at + 2], data[at + 3]]
                      else [data[at + 3], data[at + 2], data[at + 1], data[at]])
       case Enum => end == at + 4 && v == Integer(Signed(data, at, 4, swap))
       case ForeignKey | AssetReference => end == at + 4 && v == Integer(Unsigned(data, at, 4, swap))
       case Boolean => end == at + 1 && v == Flag(data[at] != 0)
       case String =>
         // The length, the characters and one byte more.
         && v.Text? && end == at + 2 + |v.s| + 1 && |v.s| == Unsigned(data, at, 2, swap)
         && v.s == data[at + 2..at + 2 + |v.s|]
       case PolymorphicReference =>
         && end == at + 8
         && v == Reference(Signed(data, at, 4, swap), Unsigned(data, at + 4, 4, swap))
       case Array =>
         && v.Many? && f.arrayType != Array && at + 4 <= end && |v.values| == Unsigned(data, at, 4, swap)
         && ElementsOnDisk(ctx, f, v, |v.values|, data, at + 4, end, swap)
       case Struct =>
         && v.Record? && (f.typeName in ctx.structures || f.typeName in ctx.defs)
         && |v.values| == |Body(ctx, f.typeName)|
         && FieldsOnDisk(ctx, Body(ctx, f.typeName), v, |v.values|, data, at, end, swap)
  }

  /** The first `n` elements of an array, one behind the other. */
  ghost predicate ElementsOnDisk(ctx: Context, f: Field, v: Value, n: nat, data: seq<byte>, at: nat, end: nat,
                                 swap: bool)
    requires v.Many? && n <= |v.values|
    decreases v, 0, n
  {
    if n == 0 then at == end <= |data|
    else
      var i: nat := n - 1;
      exists mid: nat :: ElementsOnDisk(ctx, f, v, i, data, at, mid, swap)
        && OnDisk(ctx, f.arrayType, f, v.values[i], data, mid, end, swap)
  }

  /** The first `n` fields of a structure, one behind the other. */
  ghost predicate FieldsOnDisk(ctx: Context, fields: seq<Field>, v: Value, n: nat, data: seq<byte>, at: nat, end: nat,
                               swap: bool)
    requires v.Record? && n <= |v.values| && n <= |fields|
    decreases v, 0, n
  {
    if n == 0 then at == end <= |data|
    else
      var i: nat := n - 1;
      exists mid: nat :: FieldsOnDisk(ctx, fields, v, i, data, at, mid, swap)
        && OnDisk(ctx, fields[i].fieldType, fields[i], v.values[i], data, mid, end, swap)
  }

  // ---- the generated code for the same directives ----

  /** The body of a structure or def. */
  function Body(ctx: Context, name: string): seq<Field>
    requires name in ctx.structures || name in ctx.defs
  {
    if name in ctx.structures then ctx.structures[name] else ctx.defs[name]
  }

  /** `lib` is what the compiler generates from the same directives. */
  ghost predicate Compiles(ctx: Context, lib: Library) {
    && lib.Valid() && lib.structs.Keys == ctx.structures.Keys + ctx.defs.Keys && ctx.structures.Keys !! ctx.defs.Keys
    && forall name :: name in lib.structs ==>
         && AllDeclarable(Body(ctx, name))
         && lib.structs[name].members == MembersOf(Body(ctx, name))
  }

  ghost function CompiledRead(lib: Library, t: FieldType, f: Field, data: seq<byte>, at: nat, swap: bool):
      Option<(CompiledFormat.Value, nat)>
    requires (t == Array ==> f.arrayType != Array) && lib.Valid() && lib.Usable(CxxTypeOf(t, f)) && at <= |data|
  {
    TakeType(lib, CxxTypeOf(t, f), data, at, swap)
  }

  lemma LibraryValid(ctx: Context, lib: Library)
    requires Compiles(ctx, lib)
    ensures lib.Valid()
  {
  }

  lemma {:induction false} MembersAreFields(ctx: Context, lib: Library, name: string)
    requires Compiles(ctx, lib) && name in lib.structs
    ensures |lib.structs[name].program| == |lib.structs[name].members| == |Body(ctx, name)|
  {
  }

  lemma {:induction false} MemberIsField(ctx: Context, lib: Library, name: string, i: nat)
    requires Compiles(ctx, lib) && name in lib.structs && i < |Body(ctx, name)|
    ensures Declarable(Body(ctx, name)[i])
    ensures var f := Body(ctx, name)[i];
      && i < |lib.structs[name].members|
      && lib.structs[name].members[i] == CxxTypeOf(f.fieldType, f)
      && lib.Usable(CxxTypeOf(f.fieldType, f)) && lib.Depth(CxxTypeOf(f.fieldType, f)) <= 2 * lib.depths[name]
  {
  }

  // ---- numbers as the streams read them ----

  lemma {:induction false} ReverseEnds(s: seq<byte>)
    requires s != []
    ensures Reverse(s) == [s[|s| - 1]] + Reverse(s[..|s| - 1])
  {
  }

  lemma {:induction false} NumberOnDisk(data: seq<byte>, at: nat, size: nat, swap: bool)
    requires at + size <= |data|
    ensures Number(Order(data[at..at + size], swap)) == Unsigned(data, at, size, swap)
    decreases size
  {
    var s := data[at..at + size];
    if size > 0 {
      if swap {
        NumberOnDisk(data, at, size - 1, swap);
        ReverseEnds(s);
        assert s[..size - 1] == data[at..at + (size - 1)];
        assert Reverse(s)[1..] == Reverse(s[..size - 1]);
      } else {
        NumberOnDisk(data, at + 1, size - 1, swap);
        assert s[1..] == data[at + 1..at + 1 + (size - 1)];
      }
    }
  }

  /** Half of the range begins where the highest byte is 0x80. */
  lemma {:induction false} HighestByte(s: seq<byte>)
    requires s != []
    ensures 2 * Number(s) >= Power256(|s|) <==> s[|s| - 1] >= 0x80
  {
    if |s| == 1 {
      assert s[1..] == [] && Power256(1) == 0x100;
    } else {
      HighestByte(s[1..]);
      TwoPowers(|s| - 2);
    }
  }

  lemma TwoPowers(k: nat)
    ensures Power256(k + 2) == 0x100 * Power256(k + 1) && Power256(k + 1) == 0x100 * Power256(k)
  {
  }

  lemma {:induction false} IntegerOnDisk(data: seq<byte>, at: nat, size: nat, signed: bool, swap: bool)
    requires size > 0
    ensures TakeInteger(data, at, size, signed, swap) ==
      if at + size > |data| then None
      else if signed then Some(Signed(data, at, size, swap)) else Some(Unsigned(data, at, size, swap))
  {
    if at + size <= |data| {
      var bytes := Order(data[at..at + size], swap);
      NumberOnDisk(data, at, size, swap);
      HighestByte(bytes);
      assert bytes[size - 1] == data[if swap then at else at + size - 1];
    }
  }

  // ---- fields as the generated code reads them ----

  lemma StringOnDisk(data: seq<byte>, at: nat, s: seq<byte>, end: nat, swap: bool)
    ensures TakeString(data, at, swap) == Some((s, end)) <==>
      && end == at + 2 + |s| + 1 && end <= |data| && |s| == Unsigned(data, at, 2, swap)
      && s == data[at + 2..at + 2 + |s|]
  {
    hide Order, Number, Unsigned;
    if at + 2 <= |data| {
      NumberOnDisk(data, at, 2, swap);
      var n := Unsigned(data, at, 2, swap);
      if at + 2 + n + 1 <= |data| {
        assert data[at + 2..at + 2 + n + 1][..n] == data[at + 2..at + 2 + n];
      }
    }
  }

  lemma FloatOnDisk(data: seq<byte>, at: nat, swap: bool)
    ensures TakeArithmetic(data, at, 4, !swap) ==
      if at + 4 > |data| then None
      else Some(if swap then [data[at], data[at + 1], data[at + 2], data[at + 3]]
                else [data[at + 3], data[at + 2], data[at + 1], data[at]])
  {
    if at + 4 <= |data| {
      var bytes := data[at..at + 4];
      assert bytes == [data[at], data[at + 1], data[at + 2], data[at + 3]];
      assert Reverse(bytes) == [bytes[3], bytes[2], bytes[1], bytes[0]] by { hide Reverse; }
    }
  }

  lemma {:induction false} UnsignedField(ctx: Context, lib: Library, t: FieldType, f: Field, v: Value, data: seq<byte>,
                                         at: nat, end: nat, swap: bool)
    requires lib.Valid() && at <= |data|
    requires t in {UInt8, UInt16, UInt32, UInt64, ForeignKey, AssetReference, Boolean}
    ensures CompiledRead(lib, t, f, data, at, swap) == Some((v, end)) <==> OnDisk(ctx, t, f, v, data, at, end, swap)
  {
    hide TakeInteger, TakeString, TakeArithmetic, Unsigned, Signed, ElementsOnDisk, FieldsOnDisk, Library.Valid;
    var size := match t case UInt8 | Boolean => 1 case UInt16 => 2 case UInt64 => 8 case _ => 4;
    IntegerOnDisk(data, at, size, false, swap);
    if size == 1 && at < |data| {
      OneByte(data, at, swap);
    }
  }

  lemma {:induction false} SignedField(ctx: Context, lib: Library, t: FieldType, f: Field, v: Value, data: seq<byte>,
                                       at: nat, end: nat, swap: bool)
    requires lib.Valid() && at <= |data| && t in {Int8, Int16, Int32, Int64, Enum}
    ensures CompiledRead(lib, t, f, data, at, swap) == Some((v, end)) <==> OnDisk(ctx, t, f, v, data, at, end, swap)
  {
    hide TakeInteger, TakeString, TakeArithmetic, Unsigned, Signed, ElementsOnDisk, FieldsOnDisk, Library.Valid;
    IntegerOnDisk(data, at, match t case Int8 => 1 case Int16 => 2 case Int64 => 8 case _ => 4, true, swap);
  }

  /** What the generated code reads for a field that holds no others. */
  lemma {:induction false} SimpleOnDisk(ctx: Context, lib: Library, t: FieldType, f: Field, v: Value, data: seq<byte>,
                                        at: nat, end: nat, swap: bool)
    requires lib.Valid() && at <= |data| && t != Array && t != Struct
    ensures CompiledRead(lib, t, f, data, at, swap) == Some((v, end)) <==> OnDisk(ctx, t, f, v, data, at, end, swap)
  {
    if t in {Int8, Int16, Int32, Int64, Enum} {
      hide OnDisk, CompiledRead;
      SignedField(ctx, lib, t, f, v, data, at, end, swap);
    } else if t in {Float, String, PolymorphicReference} {
      OtherField(ctx, lib, t, f, v, data, at, end, swap);
    } else {
      UnsignedField(ctx, lib, t, f, v, data, at, end, swap);
    }
  }

  lemma {:induction false} OtherField(ctx: Context, lib: Library, t: FieldType, f: Field, v: Value, data: seq<byte>,
                                      at: nat, end: nat, swap: bool)
    requires lib.Valid() && at <= |data| && t in {Float, String, PolymorphicReference}
    ensures CompiledRead(lib, t, f, data, at, swap) == Some((v, end)) <==> OnDisk(ctx, t, f, v, data, at, end, swap)
  {
    hide TakeInteger, TakeString, TakeArithmetic, Unsigned, Signed, ElementsOnDisk, FieldsOnDisk, Library.Valid;
    match t
    case Float => FloatOnDisk(data, at, swap);
    case String => if v.Text? { StringOnDisk(data, at, v.s, end, swap); }
    case PolymorphicReference =>
      IntegerOnDisk(data, at, 4, true, swap);
      IntegerOnDisk(data, at + 4, 4, false, swap);
  }

  lemma CountOnDisk(data: seq<byte>, at: nat, swap: bool)
    ensures TakeUInt32(data, at, swap) == if at + 4 > |data| then None else Some(Unsigned(data, at, 4, swap))
  {
    hide Order, Number, Unsigned;
    if at + 4 <= |data| {
      NumberOnDisk(data, at, 4, swap);
    }
  }

  /** The generated code reads a value exactly where it is on disk, for every type of field. */
  lemma {:induction false} ReadIffOnDisk(ctx: Context, lib: Library, t: FieldType, f: Field, v: Value, data: seq<byte>,
                                         at: nat, end: nat, swap: bool)
    requires Compiles(ctx, lib) && (t == Array ==> f.arrayType != Array) && lib.Usable(CxxTypeOf(t, f)) && at <= |data|
    ensures CompiledRead(lib, t, f, data, at, swap) == Some((v, end)) <==> OnDisk(ctx, t, f, v, data, at, end, swap)
    decreases v, 1
  {
    assert t == Struct ==> CxxTypeOf(t, f) == StructOf(f.typeName);
    hide TakeType, Compiles, OnDisk, CxxTypeOf, Library.Usable, Library.Valid, CompiledRead;
    LibraryValid(ctx, lib);
    if t == Array {
      ArrayOnDisk(ctx, lib, f, v, data, at, end, swap);
    } else if t == Struct {
      StructOnDisk(ctx, lib, f, v, data, at, end, swap);
    } else {
      SimpleOnDisk(ctx, lib, t, f, v, data, at, end, swap);
    }
  }

  lemma {:induction false} ArrayOnDisk(ctx: Context, lib: Library, f: Field, v: Value, data: seq<byte>, at: nat,
                                       end: nat, swap: bool)
    requires Compiles(ctx, lib) && lib.Valid() && f.arrayType != Array && lib.Usable(CxxTypeOf(Array, f))
    requires at <= |data|
    ensures CompiledRead(lib, Array, f, data, at, swap) == Some((v, end)) <==>
      OnDisk(ctx, Array, f, v, data, at, end, swap)
    decreases v, 0, if v.Many? then |v.values| + 1 else 0
  {
    hide TakeElements, TakeUInt32, ElementsOnDisk, Compiles, Unsigned, Library.Valid;
    CountOnDisk(data, at, swap);
    if v.Many? && at + 4 <= |data| {
      ElementsReadIff(ctx, lib, f, v, |v.values|, data, at + 4, end, swap);
      assert v.values[..|v.values|] == v.values;
    }
  }

  lemma {:induction false} ElementsReadIff(ctx: Context, lib: Library, f: Field, v: Value, n: nat, data: seq<byte>,
                                           at: nat, end: nat, swap: bool)
    requires Compiles(ctx, lib) && lib.Valid() && f.arrayType != Array && lib.Usable(CxxTypeOf(f.arrayType, f))
    requires v.Many? && n <= |v.values| && at <= |data|
    ensures TakeElements(lib, CxxTypeOf(f.arrayType, f), n, data, at, swap) == Some((v.values[..n], end)) <==>
      ElementsOnDisk(ctx, f, v, n, data, at, end, swap)
    decreases v, 0, n
  {
    hide TakeType, Compiles, OnDisk, CxxTypeOf, Library.Usable, Library.Valid;
    if n > 0 {
      var i: nat := n - 1;
      var element := CxxTypeOf(f.arrayType, f);
      assert v.values[..n] == v.values[..i] + [v.values[i]];
      forall mid: nat
        ensures TakeElements(lib, element, i, data, at, swap) == Some((v.values[..i], mid)) <==>
          ElementsOnDisk(ctx, f, v, i, data, at, mid, swap)
      {
        ElementsReadIff(ctx, lib, f, v, i, data, at, mid, swap);
      }
      forall mid: nat | mid <= |data|
        ensures TakeType(lib, element, data, mid, swap) == Some((v.values[i], end)) <==>
          OnDisk(ctx, f.arrayType, f, v.values[i], data, mid, end, swap)
      {
        ReadIffOnDisk(ctx, lib, f.arrayType, f, v.values[i], data, mid, end, swap);
      }
      var earlier := TakeElements(lib, element, i, data, at, swap);
      if earlier.Some? && TakeType(lib, element, data, earlier.value.1, swap).Some? {
        var last := TakeType(lib, element, data, earlier.value.1, swap).value.0;
        SameLast(earlier.value.0, last, v.values[..i], v.values[i]);
      }
    }
  }

  lemma SameLast(a: seq<Value>, x: Value, b: seq<Value>, y: Value)
    ensures a + [x] == b + [y] <==> a == b && x == y
  {
    if a + [x] == b + [y] {
      assert (a + [x])[..|a|] == a && (b + [y])[..|b|] == b;
      assert (a + [x])[|a|] == x && (b + [y])[|b|] == y;
    }
  }

  lemma {:induction false} StructOnDisk(ctx: Context, lib: Library, f: Field, v: Value, data: seq<byte>, at: nat,
                                        end: nat, swap: bool)
    requires Compiles(ctx, lib) && lib.Valid() && lib.Usable(StructOf(f.typeName)) && at <= |data|
    ensures CompiledRead(lib, Struct, f, data, at, swap) == Some((v, end)) <==>
      OnDisk(ctx, Struct, f, v, data, at, end, swap)
    decreases v, 0, if v.Record? then |v.values| + 1 else 0
  {
    hide TakeStatements, FieldsOnDisk, Compiles, Library.Valid, Body;
    NamesAStructure(ctx, lib, f.typeName);
    MembersAreFields(ctx, lib, f.typeName);
    if v.Record? && |v.values| == |Body(ctx, f.typeName)| {
      FieldsReadIff(ctx, lib, f.typeName, v, |v.values|, data, at, end, swap);
      assert v.values[..|v.values|] == v.values;
    }
  }

  lemma NamesAStructure(ctx: Context, lib: Library, name: string)
    requires Compiles(ctx, lib)
    ensures name in lib.structs <==> name in ctx.structures || name in ctx.defs
  {
  }

  /** The statements of a structure read its fields where they are on disk. */
  lemma {:induction false} FieldsReadIff(ctx: Context, lib: Library, name: string, v: Value, n: nat, data: seq<byte>,
                                         at: nat, end: nat, swap: bool)
    requires Compiles(ctx, lib) && lib.Valid() && name in lib.structs && (name in ctx.structures || name in ctx.defs)
    requires v.Record? && n <= |v.values| && n <= |Body(ctx, name)| == |lib.structs[name].program| && at <= |data|
    ensures TakeStatements(lib, name, n, data, at, swap) == Some((v.values[..n], end)) <==>
      FieldsOnDisk(ctx, Body(ctx, name), v, n, data, at, end, swap)
    decreases v, 0, n
  {
    hide TakeType, Compiles, OnDisk, CxxTypeOf, Library.Usable, Library.Valid, Body;
    if n > 0 {
      var i: nat := n - 1;
      MemberIsField(ctx, lib, name, i);
      var field := Body(ctx, name)[i];
      assert Declarable(field);
      var member := lib.structs[name].members[i];
      assert v.values[..n] == v.values[..i] + [v.values[i]];
      forall mid: nat
        ensures TakeStatements(lib, name, i, data, at, swap) == Some((v.values[..i], mid)) <==>
          FieldsOnDisk(ctx, Body(ctx, name), v, i, data, at, mid, swap)
      {
        FieldsReadIff(ctx, lib, name, v, i, data, at, mid, swap);
      }
      forall mid: nat | mid <= |data|
        ensures TakeType(lib, member, data, mid, swap) == Some((v.values[i], end)) <==>
          OnDisk(ctx, field.fieldType, field, v.values[i], data, mid, end, swap)
      {
        ReadIffOnDisk(ctx, lib, field.fieldType, field, v.values[i], data, mid, end, swap);
      }
      var earlier := TakeStatements(lib, name, i, data, at, swap);
      if earlier.Some? && TakeType(lib, member, data, earlier.value.1, swap).Some? {
        var last := TakeType(lib, member, data, earlier.value.1, swap).value.0;
        SameLast(earlier.value.0, last, v.values[..i], v.values[i]);
      }
    }
  }

  lemma OneByte(data: seq<byte>, at: nat, swap: bool)
    requires at < |data|
    ensures Unsigned(data, at, 1, swap) == data[at] as int
  {
  }
}
