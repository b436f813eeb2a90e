/** The generated `operator >>`, run on a stream. */
module CompiledReader {
  import opened Bytes
  import opened CompiledFormat
  import opened Numbers
  import opened Streams

  method ReadInteger(stream: InputStream, size: nat, signed: bool) returns (r: Option<int>)
    requires stream.Valid()
    modifies stream`ptr
    ensures stream.Valid() && r == TakeInteger(stream.data, old(stream.ptr), size, signed, stream.swapEndian)
    ensures r.Some? ==> stream.ptr == old(stream.ptr) + size
  {
    var bytes := stream.ReadArithmetic(size);
    r := if bytes == None then None else Some(Numbers.Value(bytes.value, signed));
  }

  /** Whether a read came out as the format says. */
  ghost predicate Read(stream: InputStream, expected: Option<(Value, nat)>, r: Option<Value>)
    reads stream
  {
    && stream.Valid() && (r.Some? <==> expected.Some?)
    && (r.Some? ==> expected == Some((r.value, stream.ptr)))
  }

  /** `stream >> x` for an `x` of type `t`; `None` where it throws. */
  method ReadType(stream: InputStream, lib: Library, t: CxxType) returns (r: Option<Value>)
    requires stream.Valid() && lib.Valid() && lib.Usable(t)
    modifies stream`ptr
    ensures Read(stream, TakeType(lib, t, stream.data, old(stream.ptr), stream.swapEndian), r)
    decreases |stream.data| - stream.ptr, lib.Depth(t), 1
  {
    match t {
      case VectorOf(element) => r := ReadSizedVector(stream, lib, t);
      case StructOf(name) => r := ReadStruct(stream, lib, name);
      case _ => r := ReadSimple(stream, lib, t);
    }
  }

  /** The operators for what holds no other types. */
  method ReadSimple(stream: InputStream, lib: Library, t: CxxType) returns (r: Option<Value>)
    requires stream.Valid() && lib.Valid() && lib.Usable(t) && !t.VectorOf? && !t.StructOf?
    modifies stream`ptr
    ensures Read(stream, TakeType(lib, t, stream.data, old(stream.ptr), stream.swapEndian), r)
  {
    hide TakeInteger, TakeString, TakeArithmetic;
    match t {
      case IntegerType(size, signed) =>
        var n := ReadInteger(stream, size, signed);
        r := if n == None then None else Some(Integer(n.value));
      case FloatType =>
        var bytes := stream.ReadFloat(4);
        r := if bytes == None then None else Some(Real(bytes.value));
      case StringType =>
        var s := stream.ReadString();
        r := if s == None then None else Some(Text(s.value));
      case BoolType =>
        var n := ReadInteger(stream, 1, false);
        r := if n == None then None else Some(Flag(n.value != 0));
      case EnumClass(_) =>
        var n := ReadInteger(stream, 4, true);
        r := if n == None then None else Some(Integer(n.value));
      case ForeignKeyOf(_) =>
        var n := ReadInteger(stream, 4, false);
        r := if n == None then None else Some(Integer(n.value));
      case AssetReferenceType =>
        var n := ReadInteger(stream, 4, false);
        r := if n == None then None else Some(Integer(n.value));
      case PolymorphicReferenceOf(_) =>
        r := ReadReference(stream, lib, t);
    }
  }

  method ReadReference(stream: InputStream, lib: Library, t: CxxType) returns (r: Option<Value>)
    requires stream.Valid() && lib.Valid() && t.PolymorphicReferenceOf?
    modifies stream`ptr
    ensures Read(stream, TakeType(lib, t, stream.data, old(stream.ptr), stream.swapEndian), r)
  {
    hide TakeInteger;
    var selector := ReadInteger(stream, 4, true);
    if selector == None {
      return None;
    }
    var id := ReadInteger(stream, 4, false);
    r := if id == None then None else Some(Reference(selector.value, id.value));
  }

  /** A vector with its length in front; bytes are read in one piece. */
  method ReadSizedVector(stream: InputStream, lib: Library, t: CxxType) returns (r: Option<Value>)
    requires stream.Valid() && lib.Valid() && lib.Usable(t) && t.VectorOf?
    modifies stream`ptr
    ensures Read(stream, TakeType(lib, t, stream.data, old(stream.ptr), stream.swapEndian), r)
    decreases |stream.data| - stream.ptr, lib.Depth(t), 0
  {
    var length := stream.ReadUInt32();
    if length == None {
      return None;
    }
    var values;
    if t.element == IntegerType(1, false) {
      values := ReadBytes(stream, lib, length.value);
    } else {
      values := ReadElements(stream, lib, t.element, length.value);
    }
    r := if values == None then None else Some(Many(values.value));
  }

  /** The general `operator >>` for a vector of a given size. */
  method ReadElements(stream: InputStream, lib: Library, element: CxxType, size: nat) returns (r: Option<seq<Value>>)
    requires stream.Valid() && lib.Valid() && lib.Usable(element)
    modifies stream`ptr
    ensures stream.Valid()
    ensures r.Some? <==> TakeElements(lib, element, size, stream.data, old(stream.ptr), stream.swapEndian).Some?
    ensures r.Some? ==>
      TakeElements(lib, element, size, stream.data, old(stream.ptr), stream.swapEndian) == Some((r.value, stream.ptr))
    decreases |stream.data| - stream.ptr, lib.Depth(element) + 1
  {
    hide TakeElements, TakeType;
    var values := [];
    var i := 0;
    NoElements(lib, element, stream.data, stream.ptr, stream.swapEndian);
    while i < size
      invariant 0 <= i <= size && stream.Valid() && old(stream.ptr) <= stream.ptr
      invariant TakeElements(lib, element, i, stream.data, old(stream.ptr), stream.swapEndian) ==
        Some((values, stream.ptr))
    {
      ElementsStep(lib, element, i, stream.data, old(stream.ptr), stream.swapEndian);
      var value := ReadType(stream, lib, element);
      if value == None {
        ElementsEnd(lib, element, i + 1, size, stream.data, old(stream.ptr), stream.swapEndian);
        return None;
      }
      values := values + [value.value];
      i := i + 1;
    }
    r := Some(values);
  }

  /** The `operator >>` for a vector of bytes: one region. */
  method ReadBytes(stream: InputStream, lib: Library, size: nat) returns (r: Option<seq<Value>>)
    requires stream.Valid() && lib.Valid()
    modifies stream`ptr
    ensures stream.Valid()
    ensures r.Some? <==>
      TakeElements(lib, IntegerType(1, false), size, stream.data, old(stream.ptr), stream.swapEndian).Some?
    ensures r.Some? ==> TakeElements(lib, IntegerType(1, false), size, stream.data, old(stream.ptr),
      stream.swapEndian) == Some((r.value, stream.ptr))
  {
    hide TakeElements;
    BytesAreElements(lib, size, stream.data, stream.ptr, stream.swapEndian);
    var region := stream.GetRegionForRead(size);
    r := if region == None then None else Some(ByteValues(region.value));
  }

  /** The statements of a generated `operator >>`, in turn. */
  method ReadStruct(stream: InputStream, lib: Library, name: string) returns (r: Option<Value>)
    requires stream.Valid() && lib.Valid() && name in lib.structs
    modifies stream`ptr
    ensures Read(stream, TakeType(lib, StructOf(name), stream.data, old(stream.ptr), stream.swapEndian), r)
    decreases |stream.data| - stream.ptr, 2 * lib.depths[name] + 2, 0
  {
    hide TakeStatements;
    var s := lib.structs[name];
    var values := [];
    var i := 0;
    NoStatements(lib, name, stream.data, stream.ptr, stream.swapEndian);
    while i < |s.program|
      invariant 0 <= i <= |s.program| && stream.Valid() && old(stream.ptr) <= stream.ptr
      invariant TakeStatements(lib, name, i, stream.data, old(stream.ptr), stream.swapEndian) ==
        Some((values, stream.ptr))
    {
      StatementsStep(lib, name, i, stream.data, old(stream.ptr), stream.swapEndian);
      var value := RunStatement(stream, lib, name, s.program[i]);
      if value == None {
        StatementsEnd(lib, name, i + 1, stream.data, old(stream.ptr), stream.swapEndian);
        return None;
      }
      values := values + [value.value];
      i := i + 1;
    }
    r := Some(Record(values));
  }

  /** One statement: a sized member is a vector read with its length. */
  method RunStatement(stream: InputStream, lib: Library, name: string, s: Statement) returns (r: Option<Value>)
    requires stream.Valid() && lib.Valid() && name in lib.structs && s in lib.structs[name].program
    modifies stream`ptr
    ensures s.member < |lib.structs[name].members|
    ensures Read(stream, TakeType(lib, lib.structs[name].members[s.member], stream.data, old(stream.ptr),
      stream.swapEndian), r)
    decreases |stream.data| - stream.ptr, 2 * lib.depths[name] + 1, 0
  {
    var t := lib.structs[name].members[s.member];
    if s.sized {
      r := ReadSizedVector(stream, lib, t);
    } else {
      r := ReadType(stream, lib, t);
    }
  }

  // ---- prefixes ----

  lemma NoElements(lib: Library, element: CxxType, data: seq<byte>, at: nat, swap: bool)
    requires lib.Valid() && lib.Usable(element) && at <= |data|
    ensures TakeElements(lib, element, 0, data, at, swap) == Some(([], at))
  {
  }

  lemma {:induction false} ElementsStep(lib: Library, element: CxxType, n: nat, data: seq<byte>, at: nat, swap: bool)
    requires lib.Valid() && lib.Usable(element) && at <= |data| && TakeElements(lib, element, n, data, at, swap).Some?
    ensures TakeElements(lib, element, n + 1, data, at, swap) ==
      var (values, next) := TakeElements(lib, element, n, data, at, swap).value;
      match TakeType(lib, element, data, next, swap)
      case None => None
      case Some((value, end)) => Some((values + [value], end))
  {
  }

  lemma {:induction false} OneMoreElement(lib: Library, element: CxxType, n: nat, data: seq<byte>, at: nat, swap: bool,
                                          values: seq<Value>, next: nat, value: Value, end: nat)
    requires lib.Valid() && lib.Usable(element) && at <= |data| && next <= |data|
    requires TakeElements(lib, element, n, data, at, swap) == Some((values, next))
    requires TakeType(lib, element, data, next, swap) == Some((value, end))
    ensures TakeElements(lib, element, n + 1, data, at, swap) == Some((values + [value], end))
  {
  }

  lemma {:induction false} ElementsEnd(lib: Library, element: CxxType, i: nat, n: nat, data: seq<byte>, at: nat,
                                       swap: bool)
    requires lib.Valid() && lib.Usable(element) && at <= |data| && i <= n
    requires TakeElements(lib, element, i, data, at, swap) == None
    ensures TakeElements(lib, element, n, data, at, swap) == None
    decreases n - i
  {
    hide TakeType;
    if i < n {
      ElementsEnd(lib, element, i + 1, n, data, at, swap);
    }
  }

  /** Reading more elements does not change the first ones. */
  lemma {:induction false} ElementsKept(lib: Library, element: CxxType, i: nat, n: nat, data: seq<byte>, at: nat,
                                        swap: bool)
    requires lib.Valid() && lib.Usable(element) && at <= |data| && i <= n
    ensures var taken := TakeElements(lib, element, n, data, at, swap);
      taken.Some? ==>
        && TakeElements(lib, element, i, data, at, swap).Some?
        && taken.value.0[..i] == TakeElements(lib, element, i, data, at, swap).value.0
    decreases n - i
  {
    hide TakeType;
    if i < n && TakeElements(lib, element, n, data, at, swap).Some? {
      ElementsKept(lib, element, i, n - 1, data, at, swap);
      var values := TakeElements(lib, element, n, data, at, swap).value.0;
      assert values[..n - 1][..i] == values[..i];
    }
  }

  lemma NoStatements(lib: Library, name: string, data: seq<byte>, at: nat, swap: bool)
    requires lib.Valid() && name in lib.structs && at <= |data|
    ensures TakeStatements(lib, name, 0, data, at, swap) == Some(([], at))
  {
  }

  lemma {:induction false} StatementsStep(lib: Library, name: string, n: nat, data: seq<byte>, at: nat, swap: bool)
    requires lib.Valid() && name in lib.structs && n < |lib.structs[name].program| && at <= |data|
    requires TakeStatements(lib, name, n, data, at, swap).Some?
    ensures TakeStatements(lib, name, n + 1, data, at, swap) ==
      var (values, next) := TakeStatements(lib, name, n, data, at, swap).value;
      match TakeType(lib, lib.structs[name].members[n], data, next, swap)
      case None => None
      case Some((value, end)) => Some((values + [value], end))
  {
  }

  lemma {:induction false} OneMoreStatement(lib: Library, name: string, n: nat, data: seq<byte>, at: nat, swap: bool,
                                            values: seq<Value>, next: nat, value: Value, end: nat)
    requires lib.Valid() && name in lib.structs && n < |lib.structs[name].program| && at <= |data| && next <= |data|
    requires TakeStatements(lib, name, n, data, at, swap) == Some((values, next))
    requires TakeType(lib, lib.structs[name].members[n], data, next, swap) == Some((value, end))
    ensures TakeStatements(lib, name, n + 1, data, at, swap) == Some((values + [value], end))
  {
  }

  lemma {:induction false} StatementsKept(lib: Library, name: string, i: nat, data: seq<byte>, at: nat, swap: bool)
    requires lib.Valid() && name in lib.structs && i <= |lib.structs[name].program| && at <= |data|
    ensures var n := |lib.structs[name].program|;
      TakeStatements(lib, name, n, data, at, swap).Some? ==>
        && TakeStatements(lib, name, i, data, at, swap).Some?
        && TakeStatements(lib, name, n, data, at, swap).value.0[..i] ==
          TakeStatements(lib, name, i, data, at, swap).value.0
  {
    if TakeStatements(lib, name, |lib.structs[name].program|, data, at, swap).Some? {
      FirstStatementsKept(lib, name, i, |lib.structs[name].program|, data, at, swap);
    }
  }

  lemma {:induction false} FirstStatementsKept(lib: Library, name: string, i: nat, n: nat, data: seq<byte>, at: nat,
                                               swap: bool)
    requires lib.Valid() && name in lib.structs && i <= n <= |lib.structs[name].program| && at <= |data|
    requires TakeStatements(lib, name, n, data, at, swap).Some?
    ensures TakeStatements(lib, name, i, data, at, swap).Some?
    ensures TakeStatements(lib, name, n, data, at, swap).value.0[..i] ==
      TakeStatements(lib, name, i, data, at, swap).value.0
    decreases n - i
  {
    hide TakeType;
    if i < n {
      FirstStatementsKept(lib, name, i, n - 1, data, at, swap);
      var values := TakeStatements(lib, name, n, data, at, swap).value.0;
      assert values[..n - 1][..i] == values[..i];
    }
  }

  lemma {:induction false} StatementsEnd(lib: Library, name: string, i: nat, data: seq<byte>, at: nat, swap: bool)
    requires lib.Valid() && name in lib.structs && i <= |lib.structs[name].program| && at <= |data|
    requires TakeStatements(lib, name, i, data, at, swap) == None
    ensures TakeStatements(lib, name, |lib.structs[name].program|, data, at, swap) == None
    decreases |lib.structs[name].program| - i
  {
    hide TakeType;
    if i < |lib.structs[name].program| {
      StatementsEnd(lib, name, i + 1, data, at, swap);
    }
  }

  // ---- vectors of bytes ----

  function ByteValues(bytes: seq<byte>): (r: seq<Value>)
    ensures |r| == |bytes|
  {
    if bytes == [] then [] else ByteValues(bytes[..|bytes| - 1]) + [Integer(bytes[|bytes| - 1])]
  }

  /** Reading bytes in one piece is reading them one by one. */
  lemma {:induction false} BytesAreElements(lib: Library, n: nat, data: seq<byte>, at: nat, swap: bool)
    requires lib.Valid() && at <= |data|
    ensures TakeElements(lib, IntegerType(1, false), n, data, at, swap) ==
      if at + n <= |data| then Some((ByteValues(data[at..at + n]), at + n)) else None
  {
    hide TakeElements, TakeType, Library.Valid;
    var element := IntegerType(1, false);
    if n == 0 {
      NoElements(lib, element, data, at, swap);
      assert data[at..at] == [];
    } else {
      BytesAreElements(lib, n - 1, data, at, swap);
      if at + n - 1 > |data| {
        ElementsEnd(lib, element, n - 1, n, data, at, swap);
      } else {
        ByteElement(lib, data, at + n - 1, swap);
        ElementsStep(lib, element, n - 1, data, at, swap);
        assert at + n <= |data| ==> data[at..at + n][..n - 1] == data[at..at + n - 1];
      }
    }
  }

  lemma ByteElement(lib: Library, data: seq<byte>, at: nat, swap: bool)
    requires lib.Valid() && at <= |data|
    ensures TakeType(lib, IntegerType(1, false), data, at, swap) ==
      if at < |data| then Some((Integer(data[at]), at + 1)) else None
  {
    if at < |data| {
      OneByte(data, at, swap);
    }
  }

  lemma OneByte(data: seq<byte>, at: nat, swap: bool)
    requires at < |data|
    ensures TakeInteger(data, at, 1, false, swap) == Some(data[at] as int)
  {
    var bytes := data[at..at + 1];
    OrderOne(bytes, swap);
    assert Number(bytes) == bytes[0] + 0x100 * Number(bytes[1..]) == data[at];
  }
}
