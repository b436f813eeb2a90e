/** The generated `operator <<`, and that the generated `operator >>` undoes it. */
module CompiledWriter {
  import opened Bytes
  import opened CompiledFormat
  import CompiledReader
  import opened Numbers
  import opened Streams

  /** The values a C++ variable of type `t` can hold. */
  ghost predicate Typed(lib: Library, t: CxxType, v: Value)
    decreases v
  {
    match t
    case IntegerType(size, signed) => v.Integer? && InRange(v.n, size, signed)
    case FloatType => v.Real? && |v.bytes| == 4
    case StringType => v.Text?
    case BoolType => v.Flag?
    case EnumClass(_) => v.Integer? && InRange(v.n, 4, true)
    case ForeignKeyOf(_) => v.Integer? && InRange(v.n, 4, false)
    case AssetReferenceType => v.Integer? && InRange(v.n, 4, false)
    case PolymorphicReferenceOf(_) => v.Reference? && InRange(v.selector, 4, true) && InRange(v.id, 4, false)
    case VectorOf(element) => v.Many? && forall i :: 0 <= i < |v.values| ==> Typed(lib, element, v.values[i])
    case StructOf(name) =>
      && v.Record? && name in lib.structs && |v.values| == |lib.structs[name].members|
      && forall i :: 0 <= i < |v.values| ==> Typed(lib, lib.structs[name].members[i], v.values[i])
  }

  /** No length overflows its field. */
  ghost predicate Fits(v: Value) {
    match v
    case Text(s) => |s| < 0x1_0000
    case Many(values) => |values| < TWO32 && forall i :: 0 <= i < |values| ==> Fits(values[i])
    case Record(values) => forall i :: 0 <= i < |values| ==> Fits(values[i])
    case _ => true
  }

  ghost function IntegerLayout(n: int, size: nat, swap: bool): (r: seq<byte>)
    ensures |r| == size
  {
    Order(if -Power256(size) <= n then Representation(n, size) else seq(size, i => 0), swap)
  }

  /** The bytes that `<<` writes for a value of type `t`. */
  ghost function Layout(lib: Library, t: CxxType, v: Value, swap: bool): seq<byte>
    requires Typed(lib, t, v)
    decreases v, 1
  {
    match t
    case IntegerType(size, _) => IntegerLayout(v.n, size, swap)
    case FloatType => Order(v.bytes, !swap)
    case StringType => StringLayout(v.s, swap)
    case BoolType => IntegerLayout(if v.b then 1 else 0, 1, swap)
    case EnumClass(_) => IntegerLayout(v.n, 4, swap)
    case ForeignKeyOf(_) => IntegerLayout(v.n, 4, swap)
    case AssetReferenceType => IntegerLayout(v.n, 4, swap)
    case PolymorphicReferenceOf(_) => IntegerLayout(v.selector, 4, swap) + IntegerLayout(v.id, 4, swap)
    case VectorOf(_) => UInt32Layout(|v.values|, swap) + PartsLayout(lib, t, v, |v.values|, swap)
    case StructOf(_) => PartsLayout(lib, t, v, |v.values|, swap)
  }

  /** The type of part `i` of a vector or a record. */
  function PartType(lib: Library, t: CxxType, v: Value, i: nat): CxxType
    requires (t.VectorOf? || t.StructOf?) && Typed(lib, t, v) && i < |v.values|
  {
    if t.VectorOf? then t.element else lib.structs[t.name].members[i]
  }

  /** The first `n` elements of a vector or members of a record. */
  ghost function PartsLayout(lib: Library, t: CxxType, v: Value, n: nat, swap: bool): seq<byte>
    requires (t.VectorOf? || t.StructOf?) && Typed(lib, t, v) && n <= |v.values|
    decreases v, 0, n
  {
    if n == 0 then []
    else PartsLayout(lib, t, v, n - 1, swap) + Layout(lib, PartType(lib, t, v, n - 1), v.values[n - 1], swap)
  }

  // ---- writing ----

  method WriteInteger(stream: OutputStream, n: int, size: nat)
    requires stream.Valid() && -Power256(size) <= n
    modifies stream.chain`position, stream.chain`data
    ensures stream.Wrote(old(stream.Cursors()), old(stream.Root().data), IntegerLayout(n, size, stream.swapEndian))
  {
    stream.WriteArithmetic(Representation(n, size));
  }

  /** `stream << x` for an `x` of type `t`. */
  method WriteType(stream: OutputStream, lib: Library, t: CxxType, v: Value)
    requires stream.Valid() && stream.InBounds() && Typed(lib, t, v)
    modifies stream.chain`position, stream.chain`data
    ensures stream.Wrote(old(stream.Cursors()), old(stream.Root().data), Layout(lib, t, v, stream.swapEndian))
    decreases v, 2
  {
    match t {
      case VectorOf(_) => WriteSizedVector(stream, lib, t, v);
      case StructOf(_) => WriteParts(stream, lib, t, v);
      case _ => WriteSimple(stream, lib, t, v);
    }
  }

  method WriteSimple(stream: OutputStream, lib: Library, t: CxxType, v: Value)
    requires stream.Valid() && Typed(lib, t, v) && !t.VectorOf? && !t.StructOf?
    modifies stream.chain`position, stream.chain`data
    ensures stream.Wrote(old(stream.Cursors()), old(stream.Root().data), Layout(lib, t, v, stream.swapEndian))
  {
    hide IntegerLayout, StringLayout, Overwritten;
    match t {
      case IntegerType(size, _) => WriteInteger(stream, v.n, size);
      case FloatType => stream.WriteFloat(v.bytes);
      case StringType => stream.WriteString(v.s);
      case BoolType => WriteInteger(stream, if v.b then 1 else 0, 1);
      case EnumClass(_) => WriteInteger(stream, v.n, 4);
      case ForeignKeyOf(_) => WriteInteger(stream, v.n, 4);
      case AssetReferenceType => WriteInteger(stream, v.n, 4);
      case PolymorphicReferenceOf(_) => WriteReference(stream, v.selector, v.id);
    }
  }

  method WriteReference(stream: OutputStream, selector: int, id: int)
    requires stream.Valid() && InRange(selector, 4, true) && InRange(id, 4, false)
    modifies stream.chain`position, stream.chain`data
    ensures stream.Wrote(old(stream.Cursors()), old(stream.Root().data),
              IntegerLayout(selector, 4, stream.swapEndian) + IntegerLayout(id, 4, stream.swapEndian))
  {
    hide IntegerLayout, Overwritten;
    stream.RootInChain();
    WriteInteger(stream, selector, 4);
    ghost var cursors, data := stream.Cursors(), stream.Root().data;
    WriteInteger(stream, id, 4);
    stream.WroteBoth(old(stream.Cursors()), old(stream.Root().data), IntegerLayout(selector, 4, stream.swapEndian),
                     cursors, data, IntegerLayout(id, 4, stream.swapEndian));
  }

  /** A vector behind its length, which is cut to 32 bits. */
  method WriteSizedVector(stream: OutputStream, lib: Library, t: CxxType, v: Value)
    requires stream.Valid() && Typed(lib, t, v) && t.VectorOf?
    modifies stream.chain`position, stream.chain`data
    ensures stream.Wrote(old(stream.Cursors()), old(stream.Root().data), Layout(lib, t, v, stream.swapEndian))
    decreases v, 1
  {
    hide Overwritten, PartsLayout, UInt32Layout;
    stream.RootInChain();
    stream.WriteUInt32(|v.values|);
    ghost var cursors, data := stream.Cursors(), stream.Root().data;
    WriteParts(stream, lib, t, v);
    stream.WroteBoth(old(stream.Cursors()), old(stream.Root().data), UInt32Layout(|v.values|, stream.swapEndian),
                     cursors, data, PartsLayout(lib, t, v, |v.values|, stream.swapEndian));
  }

  /** The elements of a vector, or the members of a record statement by statement. */
  method WriteParts(stream: OutputStream, lib: Library, t: CxxType, v: Value)
    requires stream.Valid() && stream.InBounds() && Typed(lib, t, v) && (t.VectorOf? || t.StructOf?)
    modifies stream.chain`position, stream.chain`data
    ensures stream.Wrote(old(stream.Cursors()), old(stream.Root().data),
              PartsLayout(lib, t, v, |v.values|, stream.swapEndian))
    decreases v, 0, 1
  {
    hide PartsWritten, Typed;
    RecordOrVector(lib, t, v);
    var i := 0;
    NothingWritten(stream, lib, t, v);
    while i < |v.values|
      invariant v.Many? || v.Record?
      invariant 0 <= i <= |v.values|
      invariant PartsWritten(stream, lib, t, v, i, old(stream.Cursors()), old(stream.Root().data))
    {
      WritePart(stream, lib, t, v, i, old(stream.Cursors()), old(stream.Root().data));
      i := i + 1;
    }
    AllWritten(stream, lib, t, v, old(stream.Cursors()), old(stream.Root().data));
  }

  /** The first `n` parts have been written since the cursors and the buffer were as given. */
  ghost predicate PartsWritten(stream: OutputStream, lib: Library, t: CxxType, v: Value, n: nat,
                               cursors: map<OutputStream, nat>, data: seq<byte>)
    requires Typed(lib, t, v) && (t.VectorOf? || t.StructOf?) && n <= |v.values|
    reads stream, stream.chain, stream.Root()
  {
    stream.Valid() && stream.InBounds() && stream.Wrote(cursors, data, PartsLayout(lib, t, v, n, stream.swapEndian))
  }

  lemma RecordOrVector(lib: Library, t: CxxType, v: Value)
    requires Typed(lib, t, v) && (t.VectorOf? || t.StructOf?)
    ensures v.Many? || v.Record?
  {
  }

  lemma AllWritten(stream: OutputStream, lib: Library, t: CxxType, v: Value, cursors: map<OutputStream, nat>,
                   data: seq<byte>)
    requires Typed(lib, t, v) && (t.VectorOf? || t.StructOf?)
    requires PartsWritten(stream, lib, t, v, |v.values|, cursors, data)
    ensures stream.Wrote(cursors, data, PartsLayout(lib, t, v, |v.values|, stream.swapEndian))
  {
  }

  method WritePart(stream: OutputStream, lib: Library, t: CxxType, v: Value, i: nat,
                   ghost cursors: map<OutputStream, nat>, ghost data: seq<byte>)
    requires Typed(lib, t, v) && (t.VectorOf? || t.StructOf?) && i < |v.values|
    requires PartsWritten(stream, lib, t, v, i, cursors, data)
    modifies stream.chain`position, stream.chain`data
    ensures PartsWritten(stream, lib, t, v, i + 1, cursors, data)
    decreases v, 0, 0
  {
    hide Overwritten, Layout, PartsLayout;
    stream.RootInChain();
    PartsStep(lib, t, v, i, stream.swapEndian);
    var part := PartType(lib, t, v, i);
    ghost var between, dataBetween := stream.Cursors(), stream.Root().data;
    WriteType(stream, lib, part, v.values[i]);
    StillInBounds(stream, between, dataBetween, Layout(lib, part, v.values[i], stream.swapEndian));
    stream.WroteBoth(cursors, data, PartsLayout(lib, t, v, i, stream.swapEndian),
                     between, dataBetween, Layout(lib, part, v.values[i], stream.swapEndian));
  }

  lemma StillInBounds(stream: OutputStream, cursors: map<OutputStream, nat>, data: seq<byte>, bytes: seq<byte>)
    requires stream.Wrote(cursors, data, bytes)
    ensures stream.InBounds()
  {
    stream.RootInChain();
  }

  lemma NothingWritten(stream: OutputStream, lib: Library, t: CxxType, v: Value)
    requires stream.Valid() && stream.InBounds() && Typed(lib, t, v) && (t.VectorOf? || t.StructOf?)
    ensures PartsWritten(stream, lib, t, v, 0, stream.Cursors(), stream.Root().data)
  {
    stream.RootInChain();
  }

  lemma {:induction false} PartsStep(lib: Library, t: CxxType, v: Value, i: nat, swap: bool)
    requires (t.VectorOf? || t.StructOf?) && Typed(lib, t, v) && i < |v.values|
    ensures Typed(lib, PartType(lib, t, v, i), v.values[i])
    ensures PartsLayout(lib, t, v, i + 1, swap) ==
      PartsLayout(lib, t, v, i, swap) + Layout(lib, PartType(lib, t, v, i), v.values[i], swap)
  {
  }

  // ---- what is written is read back ----

  lemma {:induction false} IntegerRoundTrip(before: seq<byte>, n: int, size: nat, signed: bool, after: seq<byte>,
                                            swap: bool)
    requires InRange(n, size, signed)
    ensures TakeInteger(before + IntegerLayout(n, size, swap) + after, |before|, size, signed, swap) == Some(n)
  {
    ValueOfRepresentation(n, size, signed);
    ArithmeticRoundTrip(before, Representation(n, size), after, swap);
  }

  lemma {:induction false} SimpleRoundTrip(before: seq<byte>, lib: Library, t: CxxType, v: Value, after: seq<byte>,
                                           swap: bool)
    requires lib.Valid() && lib.Usable(t) && Typed(lib, t, v) && Fits(v) && !t.VectorOf? && !t.StructOf?
    ensures TakeType(lib, t, before + Layout(lib, t, v, swap) + after, |before|, swap)
         == Some((v, |before| + |Layout(lib, t, v, swap)|))
  {
    hide IntegerLayout, TakeInteger, TakeArithmetic, TakeString, StringLayout, InRange;
    match t
    case IntegerType(size, signed) => IntegerRoundTrip(before, v.n, size, signed, after, swap);
    case FloatType => ArithmeticRoundTrip(before, v.bytes, after, !swap);
    case StringType => TextRoundTrip(before, v.s, after, swap);
    case BoolType => BoolRoundTrip(before, v.b, after, swap);
    case EnumClass(_) => IntegerRoundTrip(before, v.n, 4, true, after, swap);
    case ForeignKeyOf(_) => IntegerRoundTrip(before, v.n, 4, false, after, swap);
    case AssetReferenceType => IntegerRoundTrip(before, v.n, 4, false, after, swap);
    case PolymorphicReferenceOf(_) => ReferenceRoundTrip(before, v.selector, v.id, after, swap);
  }

  lemma {:induction false} TextRoundTrip(before: seq<byte>, s: seq<byte>, after: seq<byte>, swap: bool)
    requires |s| < 0x1_0000
    ensures |StringLayout(s, swap)| == |s| + 3
    ensures TakeString(before + StringLayout(s, swap) + after, |before|, swap) == Some((s, |before| + |s| + 3))
  {
    StringRoundTrip(before, s, after, swap);
    assert s[..|s| % 0x1_0000] == s;
  }

  lemma {:induction false} BoolRoundTrip(before: seq<byte>, b: bool, after: seq<byte>, swap: bool)
    ensures var n := if b then 1 else 0;
      TakeInteger(before + IntegerLayout(n, 1, swap) + after, |before|, 1, false, swap) == Some(n)
  {
    assert Power256(1) == 0x100;
    IntegerRoundTrip(before, if b then 1 else 0, 1, false, after, swap);
  }

  lemma {:induction false} ReferenceRoundTrip(before: seq<byte>, selector: int, id: int, after: seq<byte>, swap: bool)
    requires InRange(selector, 4, true) && InRange(id, 4, false)
    ensures var data := before + (IntegerLayout(selector, 4, swap) + IntegerLayout(id, 4, swap)) + after;
      TakeInteger(data, |before|, 4, true, swap) ==
        Some(selector) && TakeInteger(data, |before| + 4, 4, false, swap) == Some(id)
  {
    hide IntegerLayout, TakeInteger, InRange;
    var a, b := IntegerLayout(selector, 4, swap), IntegerLayout(id, 4, swap);
    assert before + (a + b) + after == before + a + (b + after) == (before + a) + b + after;
    IntegerRoundTrip(before, selector, 4, true, b + after, swap);
    IntegerRoundTrip(before + a, id, 4, false, after, swap);
  }

  /** For every schema and every value within the length limits, `>>` after `<<` is the identity, and reads
      nothing of what follows. */
  lemma {:induction false} RoundTrip(before: seq<byte>, lib: Library, t: CxxType, v: Value, after: seq<byte>,
                                     swap: bool)
    requires lib.Valid() && lib.Usable(t) && Typed(lib, t, v) && Fits(v)
    ensures TakeType(lib, t, before + Layout(lib, t, v, swap) + after, |before|, swap)
         == Some((v, |before| + |Layout(lib, t, v, swap)|))
    decreases v, 1
  {
    if t.VectorOf? {
      VectorRoundTrip(before, lib, t, v, after, swap);
    } else if t.StructOf? {
      StructRoundTrip(before, lib, t, v, after, swap);
    } else {
      SimpleRoundTrip(before, lib, t, v, after, swap);
    }
  }

  lemma {:induction false} VectorRoundTrip(before: seq<byte>, lib: Library, t: CxxType, v: Value, after: seq<byte>,
                                           swap: bool)
    requires lib.Valid() && lib.Usable(t) && Typed(lib, t, v) && Fits(v) && t.VectorOf?
    ensures TakeType(lib, t, before + Layout(lib, t, v, swap) + after, |before|, swap)
         == Some((v, |before| + |Layout(lib, t, v, swap)|))
    decreases v, 0, |v.values| + 1
  {
    hide UInt32Layout, PartsLayout, TakeElements, TakeUInt32;
    var head, parts := UInt32Layout(|v.values|, swap), PartsLayout(lib, t, v, |v.values|, swap);
    var data := before + Layout(lib, t, v, swap) + after;
    assert data == before + head + (parts + after) == (before + head) + parts + after;
    UInt32RoundTrip(before, |v.values|, parts + after, swap);
    ElementsRoundTrip(before + head, lib, t, v, |v.values|, after, swap);
    assert v.values[..|v.values|] == v.values;
  }

  lemma FitsPart(v: Value, i: nat)
    requires Fits(v) && (v.Many? || v.Record?) && i < |v.values|
    ensures Fits(v.values[i])
  {
  }

  lemma {:induction false} NoElements(before: seq<byte>, lib: Library, t: CxxType, v: Value, after: seq<byte>,
                                      swap: bool)
    requires lib.Valid() && lib.Usable(t) && Typed(lib, t, v) && t.VectorOf?
    ensures PartsLayout(lib, t, v, 0, swap) == []
    ensures TakeElements(lib, t.element, 0, before + PartsLayout(lib, t, v, 0, swap) + after, |before|, swap) ==
      Some(([], |before|))
  {
  }

  lemma {:induction false} NoStatements(before: seq<byte>, lib: Library, t: CxxType, v: Value, after: seq<byte>,
                                        swap: bool)
    requires lib.Valid() && lib.Usable(t) && Typed(lib, t, v) && t.StructOf?
    ensures PartsLayout(lib, t, v, 0, swap) == []
    ensures TakeStatements(lib, t.name, 0, before + PartsLayout(lib, t, v, 0, swap) + after, |before|, swap) ==
      Some(([], |before|))
  {
  }

  lemma {:induction false} ElementsRoundTrip(before: seq<byte>, lib: Library, t: CxxType, v: Value, n: nat,
                                             after: seq<byte>, swap: bool)
    requires lib.Valid() && lib.Usable(t) && Typed(lib, t, v) && Fits(v) && t.VectorOf? && n <= |v.values|
    ensures TakeElements(lib, t.element, n, before + PartsLayout(lib, t, v, n, swap) + after, |before|, swap)
         == Some((v.values[..n], |before| + |PartsLayout(lib, t, v, n, swap)|))
    decreases v, 0, n
  {
    hide TakeType, Layout, PartsLayout, TakeElements, Fits;
    if n == 0 {
      NoElements(before, lib, t, v, after, swap);
    } else {
      var a, value := PartsLayout(lib, t, v, n - 1, swap), v.values[n - 1];
      PartsStep(lib, t, v, n - 1, swap);
      var b := Layout(lib, t.element, value, swap);
      var data := before + (a + b) + after;
      assert before + a + (b + after) == data == (before + a) + b + after;
      ElementsRoundTrip(before, lib, t, v, n - 1, b + after, swap);
      FitsPart(v, n - 1);
      RoundTrip(before + a, lib, t.element, value, after, swap);
      CompiledReader.OneMoreElement(lib, t.element, n - 1, data, |before|, swap, v.values[..n - 1], |before + a|,
        value, |before + a| + |b|);
      assert v.values[..n] == v.values[..n - 1] + [value];
    }
  }

  lemma {:induction false} StructRoundTrip(before: seq<byte>, lib: Library, t: CxxType, v: Value, after: seq<byte>,
                                           swap: bool)
    requires lib.Valid() && lib.Usable(t) && Typed(lib, t, v) && Fits(v) && t.StructOf?
    ensures TakeType(lib, t, before + Layout(lib, t, v, swap) + after, |before|, swap)
         == Some((v, |before| + |Layout(lib, t, v, swap)|))
    decreases v, 0, |v.values| + 1
  {
    hide PartsLayout, TakeStatements;
    StatementsRoundTrip(before, lib, t, v, |v.values|, after, swap);
    assert v.values[..|v.values|] == v.values;
  }

  lemma {:induction false} StatementsRoundTrip(before: seq<byte>, lib: Library, t: CxxType, v: Value, n: nat,
                                               after: seq<byte>, swap: bool)
    requires lib.Valid() && lib.Usable(t) && Typed(lib, t, v) && Fits(v) && t.StructOf? && n <= |v.values|
    ensures TakeStatements(lib, t.name, n, before + PartsLayout(lib, t, v, n, swap) + after, |before|, swap)
         == Some((v.values[..n], |before| + |PartsLayout(lib, t, v, n, swap)|))
    decreases v, 0, n
  {
    hide TakeType, Layout, PartsLayout, TakeStatements, Fits;
    if n == 0 {
      NoStatements(before, lib, t, v, after, swap);
    } else {
      var a, member, value := PartsLayout(lib, t, v, n - 1, swap), lib.structs[t.name].members[n - 1], v.values[n - 1];
      PartsStep(lib, t, v, n - 1, swap);
      var b := Layout(lib, member, value, swap);
      var data := before + (a + b) + after;
      assert before + a + (b + after) == data == (before + a) + b + after;
      StatementsRoundTrip(before, lib, t, v, n - 1, b + after, swap);
      FitsPart(v, n - 1);
      RoundTrip(before + a, lib, member, value, after, swap);
      CompiledReader.OneMoreStatement(lib, t.name, n - 1, data, |before|, swap, v.values[..n - 1], |before + a|,
        value, |before + a| + |b|);
      assert v.values[..n] == v.values[..n - 1] + [value];
    }
  }
}
