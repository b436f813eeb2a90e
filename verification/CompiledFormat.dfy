/** The serializers that the def compiler generates: the C++ types of the fields, the statements that stream
    them, and what those statements read. */
module CompiledFormat {
  import opened Bytes
  import opened Directives
  import opened Numbers
  import opened Streams

  datatype CxxType =
    | IntegerType(size: nat, signed: bool)
    | FloatType
    | StringType
    | BoolType
    | EnumClass(name: string)
    | VectorOf(element: CxxType)
    | ForeignKeyOf(name: string)
    | StructOf(name: string)
    | PolymorphicReferenceOf(name: string)
    | AssetReferenceType

  /** `stream >> value.member`, through `makeSizedVector` if `sized`. */
  datatype Statement = Statement(member: nat, sized: bool)

  datatype CompiledStruct = CompiledStruct(members: seq<CxxType>, program: seq<Statement>)

  /** What the members of a compiled record hold. */
  datatype Value =
    | Integer(n: int)
    | Real(bytes: seq<byte>)
    | Text(s: seq<byte>)
    | Flag(b: bool)
    | Reference(selector: int, id: int)
    | Many(values: seq<Value>)
    | Record(values: seq<Value>)

  // ---- generation ----

  /** The directive files admit no arrays of arrays. */
  ghost predicate Declarable(f: Field) {
    f.fieldType == Array ==> f.arrayType != Array
  }

  ghost predicate AllDeclarable(fields: seq<Field>) {
    forall i :: 0 <= i < |fields| ==> Declarable(fields[i])
  }

  /** `writeFieldType`. */
  function CxxTypeOf(t: FieldType, f: Field): CxxType
    requires t == Array ==> f.arrayType != Array
    decreases if t == Array then 1 else 0
  {
    match t
    case Int8 => IntegerType(1, true)
    case Int16 => IntegerType(2, true)
    case Int32 => IntegerType(4, true)
    case Int64 => IntegerType(8, true)
    case UInt8 => IntegerType(1, false)
    case UInt16 => IntegerType(2, false)
    case UInt32 => IntegerType(4, false)
    case UInt64 => IntegerType(8, false)
    case Float => FloatType
    case Enum => EnumClass(f.typeName)
    case String => StringType
    case Array => VectorOf(CxxTypeOf(f.arrayType, f))
    case ForeignKey => ForeignKeyOf(f.typeName)
    case AssetReference => AssetReferenceType
    case Boolean => BoolType
    case Struct => StructOf(f.typeName)
    case PolymorphicReference => PolymorphicReferenceOf(f.typeName)
  }

  /** Bytes of a number of the type; 0 for what is not a plain number. */
  ghost function NumberSize(t: FieldType): nat {
    match t
    case Int8 | UInt8 => 1
    case Int16 | UInt16 => 2
    case Int32 | UInt32 => 4
    case Int64 | UInt64 => 8
    case _ => 0
  }

  ghost predicate IsSigned(t: FieldType) {
    t == Int8 || t == Int16 || t == Int32 || t == Int64
  }

  /** Which type of field a C++ type is the declaration of. */
  ghost predicate Declares(m: CxxType, t: FieldType, f: Field)
    decreases m
  {
    match m
    case IntegerType(size, signed) => 0 < size == NumberSize(t) && signed == IsSigned(t)
    case FloatType => t == Float
    case StringType => t == String
    case BoolType => t == Boolean
    case EnumClass(name) => t == Enum && name == f.typeName
    case VectorOf(element) => t == Array && Declares(element, f.arrayType, f)
    case ForeignKeyOf(name) => t == ForeignKey && name == f.typeName
    case StructOf(name) => t == Struct && name == f.typeName
    case PolymorphicReferenceOf(name) => t == PolymorphicReference && name == f.typeName
    case AssetReferenceType => t == AssetReference
  }

  lemma DeclaresType(t: FieldType, f: Field)
    requires t == Array ==> f.arrayType != Array
    ensures Declares(CxxTypeOf(t, f), t, f)
  {
    assert f.arrayType != Array ==> Declares(CxxTypeOf(f.arrayType, f), f.arrayType, f);
  }

  ghost function MembersOf(fields: seq<Field>): (r: seq<CxxType>)
    requires AllDeclarable(fields)
    ensures |r| == |fields| && forall i :: 0 <= i < |r| ==> r[i] == CxxTypeOf(fields[i].fieldType, fields[i])
  {
    if fields == [] then []
    else
      var last := fields[|fields| - 1];
      MembersOf(fields[..|fields| - 1]) + [CxxTypeOf(last.fieldType, last)]
  }

  lemma MembersStep(fields: seq<Field>, n: nat)
    requires AllDeclarable(fields) && n < |fields|
    ensures Declarable(fields[n])
    ensures CxxTypeOf(fields[n].fieldType, fields[n]).VectorOf? <==> fields[n].fieldType == Array
    ensures MembersOf(fields[..n + 1]) == MembersOf(fields[..n]) + [CxxTypeOf(fields[n].fieldType, fields[n])]
  {
    assert fields[..n + 1][..n] == fields[..n];
  }

  /** Each member is streamed once, in order, vectors with their length. */
  ghost predicate InOrder(s: CompiledStruct) {
    && |s.program| == |s.members|
    && forall i :: 0 <= i < |s.program| ==> s.program[i] == Statement(i, s.members[i].VectorOf?)
  }

  /** `writeFields` and `writeSerializer`. */
  method CompileStructure(fields: seq<Field>) returns (s: CompiledStruct)
    requires AllDeclarable(fields)
    ensures s.members == MembersOf(fields) && InOrder(s)
    ensures forall i :: 0 <= i < |fields| ==> Declares(s.members[i], fields[i].fieldType, fields[i])
  {
    hide MembersOf, CxxTypeOf;
    assert MembersOf(fields[..0]) == [];
    var members: seq<CxxType> := [];
    var program: seq<Statement> := [];
    var index := 0;
    while index < |fields|
      invariant 0 <= index <= |fields| && |members| == |program| == index
      invariant members == MembersOf(fields[..index])
      invariant forall i :: 0 <= i < index ==> program[i] == Statement(i, members[i].VectorOf?)
    {
      var field := fields[index];
      MembersStep(fields, index);
      members := members + [CxxTypeOf(field.fieldType, field)];
      program := program + [Statement(index, field.fieldType == Array)];
      index := index + 1;
    }
    assert fields[..index] == fields;
    s := CompiledStruct(members, program);
    forall i | 0 <= i < |fields|
      ensures Declares(members[i], fields[i].fieldType, fields[i])
    {
      assert Declarable(fields[i]);
      DeclaresType(fields[i].fieldType, fields[i]);
    }
  }

  // ---- what the generated operators read ----

  /** The generated structures, each with how deep structures lie directly in one another within it. */
  datatype Library = Library(structs: map<string, CompiledStruct>, depths: map<string, nat>) {
    /** What a C++ compiler accepts: a structure is complete before it becomes a direct member. */
    ghost predicate Valid() {
      && structs.Keys == depths.Keys
      && (forall name :: name in structs ==> InOrder(structs[name]))
      && (forall name, i :: name in structs && 0 <= i < |structs[name].members| ==>
            Usable(structs[name].members[i]) && Depth(structs[name].members[i]) <= 2 * depths[name])
    }

    ghost predicate Usable(t: CxxType) {
      match t
      case StructOf(name) => name in structs && name in depths
      case VectorOf(element) =>
        !element.VectorOf? && (element.StructOf? ==> element.name in structs && element.name in depths)
      case _ => true
    }

    ghost function Depth(t: CxxType): nat {
      match t
      case StructOf(name) => if name in depths then 2 * depths[name] + 2 else 0
      case _ => 0
    }
  }

  ghost function TakeInteger(data: seq<byte>, at: nat, size: nat, signed: bool, swap: bool): (r: Option<int>)
    ensures r.Some? ==> at + size <= |data|
  {
    match TakeArithmetic(data, at, size, swap)
    case None => None
    case Some(bytes) => Some(Numbers.Value(bytes, signed))
  }

  /** What `>>` reads into a variable of type `t`, and where it ends; a vector is sized. */
  ghost function TakeType(lib: Library, t: CxxType, data: seq<byte>, at: nat, swap: bool): (r: Option<(Value, nat)>)
    requires lib.Valid() && lib.Usable(t) && at <= |data|
    ensures r.Some? ==> at <= r.value.1 <= |data|
    decreases |data| - at, lib.Depth(t), 0
  {
    match t
    case IntegerType(size, signed) =>
      (match TakeInteger(data, at, size, signed, swap) case None => None case Some(n) => Some((Integer(n), at + size)))
    case FloatType =>
      (match TakeArithmetic(data, at, 4, !swap) case None => None case Some(bytes) => Some((Real(bytes), at + 4)))
    case StringType =>
      (match TakeString(data, at, swap) case None => None case Some((s, end)) => Some((Text(s), end)))
    case BoolType =>
      (match TakeInteger(data, at, 1, false, swap) case None => None case Some(n) => Some((Flag(n != 0), at + 1)))
    case EnumClass(_) =>
      (match TakeInteger(data, at, 4, true, swap) case None => None case Some(n) => Some((Integer(n), at + 4)))
    case ForeignKeyOf(_) =>
      (match TakeInteger(data, at, 4, false, swap) case None => None case Some(n) => Some((Integer(n), at + 4)))
    case AssetReferenceType =>
      (match TakeInteger(data, at, 4, false, swap) case None => None case Some(n) => Some((Integer(n), at + 4)))
    case PolymorphicReferenceOf(_) =>
      (match TakeInteger(data, at, 4, true, swap)
       case None => None
       case Some(selector) =>
         match TakeInteger(data, at + 4, 4, false, swap)
         case None => None
         case Some(id) => Some((Reference(selector, id), at + 8)))
    case VectorOf(element) =>
      (match TakeUInt32(data, at, swap)
       case None => None
       case Some(length) =>
         match TakeElements(lib, element, length, data, at + 4, swap)
         case None => None
         case Some((values, end)) => Some((Many(values), end)))
    case StructOf(name) =>
      (match TakeStatements(lib, name, |lib.structs[name].program|, data, at, swap)
       case None => None
       case Some((values, end)) => Some((Record(values), end)))
  }

  /** The first `n` elements of a vector. */
  ghost function TakeElements(lib: Library, element: CxxType, n: nat, data: seq<byte>, at: nat,
                        swap: bool): (r: Option<(seq<Value>, nat)>)
    requires lib.Valid() && lib.Usable(element) && at <= |data|
    ensures r.Some? ==> |r.value.0| == n && at <= r.value.1 <= |data|
    decreases |data| - at, lib.Depth(element) + 1, n
  {
    if n == 0 then Some(([], at))
    else
      match TakeElements(lib, element, n - 1, data, at, swap)
      case None => None
      case Some((values, next)) =>
        match TakeType(lib, element, data, next, swap)
        case None => None
        case Some((value, end)) => Some((values + [value], end))
  }

  /** What the first `n` statements of a generated `operator >>` read, member by member. */
  ghost function TakeStatements(lib: Library, name: string, n: nat, data: seq<byte>, at: nat,
                          swap: bool): (r: Option<(seq<Value>, nat)>)
    requires lib.Valid() && name in lib.structs && n <= |lib.structs[name].program| && at <= |data|
    ensures r.Some? ==> |r.value.0| == n && at <= r.value.1 <= |data|
    decreases |data| - at, 2 * lib.depths[name] + 1, n
  {
    if n == 0 then Some(([], at))
    else
      match TakeStatements(lib, name, n - 1, data, at, swap)
      case None => None
      case Some((values, next)) =>
        match TakeType(lib, lib.structs[name].members[n - 1], data, next, swap)
        case None => None
        case Some((value, end)) => Some((values + [value], end))
  }
}
