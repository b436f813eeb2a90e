/** The rows of a def: what the generated code writes and reads, and what the interpreter loads. */
module Rows {
  import opened Agreement
  import opened Bytes
  import opened CompiledFormat
  import CompiledReader
  import opened CompiledWriter
  import opened Directives
  import opened DynamicParser
  import opened DynamicRecord
  import opened FieldFormat
  import opened Streams

  type Value = CompiledFormat.Value

  // ---- a row as the generated code writes and reads it ----

  /** What the generated `deserialize` of a def reads: its base, then its own members. */
  ghost function CompiledRow(lib: Library, def: string, data: seq<byte>, swap: bool): Option<(seq<Value>, seq<Value>)>
    requires lib.Valid() && "BaseDef" in lib.structs && def in lib.structs
  {
    match TakeStatements(lib, "BaseDef", |lib.structs["BaseDef"].program|, data, 0, swap)
    case None => None
    case Some((inherited, next)) =>
      match TakeStatements(lib, def, |lib.structs[def].program|, data, next, swap)
      case None => None
      case Some((own, _)) => Some((inherited, own))
  }

  /** The generated `deserialize`. */
  method Deserialize(lib: Library, def: string, data: seq<byte>, swap: bool) returns (r: Option<(seq<Value>,
                     seq<Value>)>)
    requires lib.Valid() && "BaseDef" in lib.structs && def in lib.structs
    ensures r == CompiledRow(lib, def, data, swap)
  {
    hide TakeStatements;
    var stream := new InputStream(data);
    stream.swapEndian := swap;
    var inherited := CompiledReader.ReadStruct(stream, lib, "BaseDef");
    if inherited == None {
      return None;
    }
    var own := CompiledReader.ReadStruct(stream, lib, def);
    if own == None {
      return None;
    }
    r := Some((inherited.value.values, own.value.values));
  }

  /** A row is read exactly where its base and then its own members are on disk. */
  lemma {:induction false} RowOnDisk(ctx: Context, lib: Library, def: string, data: seq<byte>, swap: bool,
                                     inherited: seq<Value>, own: seq<Value>)
    requires Compiles(ctx, lib) && lib.Valid() && "BaseDef" in ctx.structures && def in ctx.defs
    requires "BaseDef" in lib.structs && def in lib.structs
    ensures CompiledRow(lib, def, data, swap) == Some((inherited, own)) <==>
      var base, members := ctx.structures["BaseDef"], ctx.defs[def];
      && |inherited| == |base| && |own| == |members|
      && exists mid: nat, end: nat ::
           && FieldsOnDisk(ctx, base, Record(inherited), |base|, data, 0, mid, swap)
           && FieldsOnDisk(ctx, members, Record(own), |members|, data, mid, end, swap)
  {
    hide TakeStatements, FieldsOnDisk, Compiles, Library.Valid, Body;
    BodiesOf(ctx, lib, def);
    var base, members := ctx.structures["BaseDef"], ctx.defs[def];
    if |inherited| == |base| && |own| == |members| {
      assert inherited[..|base|] == inherited && own[..|members|] == own;
      forall mid: nat
        ensures TakeStatements(lib, "BaseDef", |base|, data, 0, swap) == Some((inherited, mid)) <==>
          FieldsOnDisk(ctx, base, Record(inherited), |base|, data, 0, mid, swap)
      {
        FieldsReadIff(ctx, lib, "BaseDef", Record(inherited), |base|, data, 0, mid, swap);
      }
      forall mid: nat, end: nat | mid <= |data|
        ensures TakeStatements(lib, def, |members|, data, mid, swap) == Some((own, end)) <==>
          FieldsOnDisk(ctx, members, Record(own), |members|, data, mid, end, swap)
      {
        FieldsReadIff(ctx, lib, def, Record(own), |members|, data, mid, end, swap);
      }
      if CompiledRow(lib, def, data, swap) == Some((inherited, own)) {
        var mid := TakeStatements(lib, "BaseDef", |base|, data, 0, swap).value.1;
        var end := TakeStatements(lib, def, |members|, data, mid, swap).value.1;
        assert FieldsOnDisk(ctx, base, Record(inherited), |base|, data, 0, mid, swap);
        assert FieldsOnDisk(ctx, members, Record(own), |members|, data, mid, end, swap);
      }
    }
  }

  /** What the generated `serialize` writes. */
  ghost function RowLayout(lib: Library, def: string, inherited: Value, own: Value, swap: bool): seq<byte>
    requires Typed(lib, StructOf("BaseDef"), inherited) && Typed(lib, StructOf(def), own)
  {
    Layout(lib, StructOf("BaseDef"), inherited, swap) + PartsLayout(lib, StructOf(def), own, |own.values|, swap)
  }

  /** The generated `serialize`. */
  method Serialize(stream: OutputStream, lib: Library, def: string, inherited: Value, own: Value)
    requires stream.Valid() && stream.InBounds()
    requires Typed(lib, StructOf("BaseDef"), inherited) && Typed(lib, StructOf(def), own)
    modifies stream.chain`position, stream.chain`data
    ensures stream.Wrote(old(stream.Cursors()), old(stream.Root().data),
              RowLayout(lib, def, inherited, own, stream.swapEndian))
  {
    hide Overwritten, Layout, PartsLayout, Typed;
    RecordTyped(lib, def, own);
    stream.RootInChain();
    ghost var head, swap := Layout(lib, StructOf("BaseDef"), inherited, stream.swapEndian), stream.swapEndian;
    WriteType(stream, lib, StructOf("BaseDef"), inherited);
    StillInBounds(stream, old(stream.Cursors()), old(stream.Root().data), head);
    ghost var cursors, data := stream.Cursors(), stream.Root().data;
    WriteParts(stream, lib, StructOf(def), own);
    stream.WroteBoth(old(stream.Cursors()), old(stream.Root().data), head,
                     cursors, data, PartsLayout(lib, StructOf(def), own, |own.values|, swap));
  }

  /** `deserialize` after `serialize` gives back the base and the members, whatever follows them. */
  lemma {:induction false} RowRoundTrip(lib: Library, def: string, inherited: Value, own: Value, after: seq<byte>,
                                        swap: bool)
    requires lib.Valid() && "BaseDef" in lib.structs && def in lib.structs
    requires Typed(lib, StructOf("BaseDef"), inherited) && Typed(lib, StructOf(def), own)
    requires Fits(inherited) && Fits(own)
    ensures CompiledRow(lib, def, RowLayout(lib, def, inherited, own, swap) + after, swap)
         == Some((inherited.values, own.values))
  {
    hide TakeStatements, PartsLayout, Fits, Typed;
    RecordTyped(lib, "BaseDef", inherited);
    RecordTyped(lib, def, own);
    StructLayout(lib, "BaseDef", inherited, swap);
    var head := PartsLayout(lib, StructOf("BaseDef"), inherited, |inherited.values|, swap);
    var tail := PartsLayout(lib, StructOf(def), own, |own.values|, swap);
    var data := RowLayout(lib, def, inherited, own, swap) + after;
    assert data == [] + head + (tail + after) == head + tail + after;
    StatementsRoundTrip([], lib, StructOf("BaseDef"), inherited, |inherited.values|, tail + after, swap);
    StatementsRoundTrip(head, lib, StructOf(def), own, |own.values|, after, swap);
    assert inherited.values[..|inherited.values|] == inherited.values && own.values[..|own.values|] == own.values;
  }

  lemma StructLayout(lib: Library, name: string, v: Value, swap: bool)
    requires Typed(lib, StructOf(name), v)
    ensures Layout(lib, StructOf(name), v, swap) == PartsLayout(lib, StructOf(name), v, |v.values|, swap)
  {
    hide PartsLayout;
  }

  // ---- a row as the interpreter reads it ----

  /** The record that a row starts from. */
  function RowStart(flags: int, version: int): Container {
    Put(Put(EMPTY, "flags", UnsignedValue(flags)), "version", UnsignedValue(version))
  }

  /** Every name the interpreter looks up while it reads the row is known. */
  ghost predicate RowKnown(ctx: Context, def: string, row: (seq<Value>, seq<Value>))
    requires "BaseDef" in ctx.structures && def in ctx.defs
  {
    FieldsKnown(ctx, ctx.structures["BaseDef"], row.0) && FieldsKnown(ctx, ctx.defs[def], row.1)
  }

  // ---- the id that a row is filed under ----

  ghost predicate IsUnsigned(t: FieldType) {
    t in {UInt8, UInt16, UInt32, UInt64}
  }

  /** Whether an unsigned number is filed under `id` behind the first `n` fields, if `before` says so of what
      there was ahead of them. */
  ghost predicate IdAfter(before: bool, fields: seq<Field>, n: nat)
    requires n <= |fields|
  {
    if n == 0 then before
    else if fields[n - 1].name == "id" then IsUnsigned(fields[n - 1].fieldType)
    else IdAfter(before, fields, n - 1)
  }

  /** The last field called `id`, of the base or of the def, is an unsigned number. */
  ghost predicate RowHasId(base: seq<Field>, own: seq<Field>) {
    IdAfter(IdAfter(false, base, |base|), own, |own|)
  }

  /** Where `std::get<unsigned long long>(record.findField("id"))` does not throw. */
  predicate HasId(c: Container) {
    "id" in c.fields && c.fields["id"].UnsignedValue?
  }

  function IdIn(c: Container): int
    requires HasId(c)
  {
    c.fields["id"].n
  }

  lemma PresentUnsigned(ctx: Context, lib: Library, t: FieldType, f: Field, v: Value)
    requires (t == Array ==> f.arrayType != Array) && Typed(lib, CxxTypeOf(t, f), v)
    ensures Present(ctx, t, f, v).UnsignedValue? <==> IsUnsigned(t)
  {
    hide Fill, PresentElements;
  }

  lemma PutId(c: Container, name: string, value: Dynamic)
    ensures HasId(Put(c, name, value)) <==> if name == "id" then value.UnsignedValue? else HasId(c)
  {
    hide Decimal;
    if name == "" {
      assert RealName(|c.fields|, name)[0] == 'u';
    }
    assert RealName(|c.fields|, name) == "id" <==> name == "id";
  }

  /** Whether the lookup of the id succeeds can be told from the fields alone. */
  lemma {:induction false} FillId(ctx: Context, lib: Library, name: string, v: Value, n: nat, c: Container)
    requires Compiles(ctx, lib) && name in lib.structs && (name in ctx.structures || name in ctx.defs)
    requires Typed(lib, StructOf(name), v) && v.Record? && n <= |v.values| == |Body(ctx, name)|
    ensures HasId(Fill(ctx, Body(ctx, name), v, n, c)) <==> IdAfter(HasId(c), Body(ctx, name), n)
  {
    hide Compiles, Typed, Present, Put, HasId, IsUnsigned, CxxTypeOf, Body, Fill;
    var fields := Body(ctx, name);
    if n == 0 {
      NothingFiled(ctx, fields, v, c);
    } else {
      var earlier, f := Fill(ctx, fields, v, n - 1, c), fields[n - 1];
      FillId(ctx, lib, name, v, n - 1, c);
      FillStep(ctx, fields, v, n, c);
      MemberTyped(lib, name, v, n - 1);
      MemberIsField(ctx, lib, name, n - 1);
      assert Declarable(f);
      PresentUnsigned(ctx, lib, f.fieldType, f, v.values[n - 1]);
      PutId(earlier, f.name, Present(ctx, f.fieldType, f, v.values[n - 1]));
    }
  }

  /** Whether the interpreter reads a row: the generated code does, every name in it is known, and the record
      has an id. */
  ghost predicate RowReads(ctx: Context, lib: Library, def: string, data: seq<byte>)
    requires lib.Valid() && "BaseDef" in ctx.structures && def in ctx.defs
    requires "BaseDef" in lib.structs && def in lib.structs
  {
    var compiled := CompiledRow(lib, def, data, true);
    compiled.Some? && RowKnown(ctx, def, compiled.value) && RowHasId(ctx.structures["BaseDef"], ctx.defs[def])
  }

  lemma {:induction false} RowId(ctx: Context, lib: Library, def: string, flags: int, version: int, data: seq<byte>)
    requires Compiles(ctx, lib) && "BaseDef" in ctx.structures && def in ctx.defs
    requires "BaseDef" in lib.structs && def in lib.structs && CompiledRow(lib, def, data, true).Some?
    ensures var row, base, own := CompiledRow(lib, def, data, true).value, ctx.structures["BaseDef"], ctx.defs[def];
      && |row.0| == |base| && |row.1| == |own|
      && (HasId(RowRecord(ctx, def, row, flags, version)) <==> RowHasId(base, own))
  {
    hide TakeStatements, Fill, Put, RowStart, Compiles, Body, Typed, HasId, IdAfter;
    BodiesOf(ctx, lib, def);
    LibraryValid(ctx, lib);
    var base, own := ctx.structures["BaseDef"], ctx.defs[def];
    var row := CompiledRow(lib, def, data, true).value;
    var start := RowStart(flags, version);
    assert !HasId(start) by { NoIdAtStart(flags, version); }
    RowPartTyped(lib, "BaseDef", data, 0, true);
    RowPartTyped(lib, def, data, TakeStatements(lib, "BaseDef", |base|, data, 0, true).value.1, true);
    FillId(ctx, lib, "BaseDef", Record(row.0), |base|, start);
    FillId(ctx, lib, def, Record(row.1), |own|, Fill(ctx, base, Record(row.0), |base|, start));
  }

  lemma NoIdAtStart(flags: int, version: int)
    ensures !HasId(RowStart(flags, version))
  {
    RowStartIsTidy(flags, version);
  }

  /** The body of the loop of `loadDef`: base and def are read into one record, numbers swapped, and the id is
      looked up in it. */
  method ParseRow(ctx: Context, ghost lib: Library, def: string, flags: int, version: int,
                  data: seq<byte>) returns (r: Option<(Container, int)>)
    requires Compiles(ctx, lib) && "BaseDef" in ctx.structures && def in ctx.defs && "BaseDef" in lib.structs
    requires def in lib.structs
    ensures r.Some? <==> RowReads(ctx, lib, def, data)
    ensures r.Some? ==>
      var row, base, own := CompiledRow(lib, def, data, true).value, ctx.structures["BaseDef"], ctx.defs[def];
      && |row.0| == |base| && |row.1| == |own|
      && r.value.0 == RowRecord(ctx, def, row, flags, version)
      && "id" in r.value.0.fields && r.value.0.fields["id"] == UnsignedValue(r.value.1)
  {
    hide TakeStatements, Fill, Put, RowStart, Compiles, Body, FieldsKnown, IdAfter;
    LibraryValid(ctx, lib);
    BodiesOf(ctx, lib, def);
    var record := RowStart(flags, version);
    var contentStream := new InputStream(data);
    contentStream.swapEndian := true;
    var withBase := ParseStructure(contentStream, ctx, lib, "BaseDef", ctx.structures["BaseDef"], record);
    if withBase == None {
      return None;
    }
    var whole := ParseStructure(contentStream, ctx, lib, def, ctx.defs[def], withBase.value);
    if whole == None {
      return None;
    }
    RowId(ctx, lib, def, flags, version, data);
    if !HasId(whole.value) {
      return None;
    }
    r := Some((whole.value, IdIn(whole.value)));
  }

  /** The records of a def, and which of them each id leads to. */
  datatype Loaded = Loaded(records: seq<Container>, lookup: map<int, nat>)

  /** `k` is the first of the records with the id `id`. */
  ghost predicate IsFirstWith(records: seq<Container>, id: int, k: nat) {
    && k < |records| && HasId(records[k]) && records[k].fields["id"] == UnsignedValue(id)
    && forall j :: 0 <= j < k ==> HasId(records[j]) && records[j].fields["id"] != UnsignedValue(id)
  }

  /** Every record has an id, and each id leads to the first record that has it. */
  ghost predicate Indexed(rows: Loaded) {
    && (forall k :: 0 <= k < |rows.records| ==> HasId(rows.records[k]) && IdIn(rows.records[k]) in rows.lookup)
    && forall id :: id in rows.lookup ==> IsFirstWith(rows.records, id, rows.lookup[id])
  }

  lemma IndexOneMore(rows: Loaded, record: Container)
    requires Indexed(rows) && HasId(record)
    ensures var id := IdIn(record);
      Indexed(Loaded(rows.records + [record],
                   if id in rows.lookup then rows.lookup else rows.lookup[id := |rows.records|]))
  {
    var id, records := IdIn(record), rows.records + [record];
    forall other | other in rows.lookup
      ensures IsFirstWith(records, other, rows.lookup[other])
    {
      assert IsFirstWith(rows.records, other, rows.lookup[other]);
    }
    if id !in rows.lookup {
      assert IsFirstWith(records, id, |rows.records|);
    }
  }

  /** The loop of `loadDef`: nothing is loaded unless every row is read. */
  method LoadRows(ctx: Context, ghost lib: Library, def: string, flags: int, version: int,
                  data: seq<seq<byte>>) returns (r: Option<Loaded>)
    requires Compiles(ctx, lib) && "BaseDef" in ctx.structures && def in ctx.defs && "BaseDef" in lib.structs
    requires def in lib.structs
    ensures r.Some? <==> forall k :: 0 <= k < |data| ==> RowReads(ctx, lib, def, data[k])
    ensures r.Some? ==> |r.value.records| == |data| && Indexed(r.value)
    ensures r.Some? ==> forall k :: 0 <= k < |data| ==>
      IsRowRecord(ctx, lib, def, flags, version, data[k], r.value.records[k])
  {
    hide Compiles, RowReads, Indexed, IsRowRecord, RowRecord, CompiledRow, RowHasId, IdAfter, IsFirstWith;
    LibraryValid(ctx, lib);
    var rows := Loaded([], map[]);
    var i := 0;
    assert Indexed(rows) by { NothingIndexed(); }
    while i < |data|
      invariant 0 <= i <= |data| && |rows.records| == i && Indexed(rows)
      invariant forall k :: 0 <= k < i ==> RowReads(ctx, lib, def, data[k])
      invariant forall k :: 0 <= k < i ==> IsRowRecord(ctx, lib, def, flags, version, data[k], rows.records[k])
    {
      var row := ParseRow(ctx, lib, def, flags, version, data[i]);
      if row == None {
        return None;
      }
      var (record, id) := row.value;
      ThisRowsRecord(ctx, lib, def, flags, version, data[i], record);
      IndexOneMore(rows, record);
      rows := Loaded(rows.records + [record],
                   if id in rows.lookup then rows.lookup else rows.lookup[id := |rows.records|]);
      i := i + 1;
    }
    r := Some(rows);
  }

  lemma NothingIndexed()
    ensures Indexed(Loaded([], map[]))
  {
  }

  lemma ThisRowsRecord(ctx: Context, lib: Library, def: string, flags: int, version: int, data: seq<byte>,
                       record: Container)
    requires lib.Valid() && "BaseDef" in ctx.structures && def in ctx.defs
    requires "BaseDef" in lib.structs && def in lib.structs && RowReads(ctx, lib, def, data)
    requires var row := CompiledRow(lib, def, data, true).value;
      && |row.0| == |ctx.structures["BaseDef"]| && |row.1| == |ctx.defs[def]|
      && record == RowRecord(ctx, def, row, flags, version)
    ensures IsRowRecord(ctx, lib, def, flags, version, data, record)
  {
  }

  ghost predicate IsRowRecord(ctx: Context, lib: Library, def: string, flags: int, version: int, data: seq<byte>,
                              record: Container)
    requires lib.Valid() && "BaseDef" in ctx.structures && def in ctx.defs
    requires "BaseDef" in lib.structs && def in lib.structs
  {
    var compiled := CompiledRow(lib, def, data, true);
    && compiled.Some?
    && |compiled.value.0| == |ctx.structures["BaseDef"]| && |compiled.value.1| == |ctx.defs[def]|
    && record == RowRecord(ctx, def, compiled.value, flags, version)
  }

  /** `findRecordById`: the first record with the id, if any has it. */
  ghost function FindRecordById(rows: Loaded, id: int): (r: Option<Container>)
    requires Indexed(rows)
    ensures r.Some? ==> exists k: nat :: IsFirstWith(rows.records, id, k) && r.value == rows.records[k]
    ensures r.None? ==> forall k :: 0 <= k < |rows.records| ==>
      HasId(rows.records[k]) && rows.records[k].fields["id"] != UnsignedValue(id)
  {
    if id in rows.lookup then Some(rows.records[rows.lookup[id]]) else None
  }

  lemma {:induction false} BodiesOf(ctx: Context, lib: Library, def: string)
    requires Compiles(ctx, lib) && "BaseDef" in ctx.structures && def in ctx.defs
    ensures "BaseDef" in lib.structs && def in lib.structs
    ensures Body(ctx, "BaseDef") == ctx.structures["BaseDef"] && Body(ctx, def) == ctx.defs[def]
    ensures |lib.structs["BaseDef"].program| == |ctx.structures["BaseDef"]|
    ensures |lib.structs[def].program| == |ctx.defs[def]|
  {
    MembersAreFields(ctx, lib, "BaseDef");
    MembersAreFields(ctx, lib, def);
  }

  /** Every field of the record, base first, has a name that none before it has, `flags` and `version` included. */
  ghost predicate RowNamesNew(base: seq<Field>, own: seq<Field>) {
    var used := {"flags", "version"};
    NamesNew(used, base, |base|) && NamesNew(UsedAfter(used, base, |base|), own, |own|)
  }

  ghost function RowRecord(ctx: Context, def: string, row: (seq<Value>, seq<Value>), flags: int,
                           version: int): Container
    requires "BaseDef" in ctx.structures && def in ctx.defs
    requires |row.0| == |ctx.structures["BaseDef"]| && |row.1| == |ctx.defs[def]|
  {
    var base, own := ctx.structures["BaseDef"], ctx.defs[def];
    Fill(ctx, own, Record(row.1), |own|, Fill(ctx, base, Record(row.0), |base|, RowStart(flags, version)))
  }

  lemma RowStartIsTidy(flags: int, version: int)
    ensures Tidy(RowStart(flags, version)) && RowStart(flags, version).fields.Keys == {"flags", "version"}
    ensures RowStart(flags, version).order == ["flags", "version"]
    ensures Erased(RowStart(flags, version)) == [Integer(flags), Integer(version)]
  {
    EmptyIsTidy();
    TidyPut(EMPTY, "flags", UnsignedValue(flags));
    TidyPut(Put(EMPTY, "flags", UnsignedValue(flags)), "version", UnsignedValue(version));
  }

  /** What was read by the statements of a structure has that structure's type. */
  lemma {:induction false} RowPartTyped(lib: Library, name: string, data: seq<byte>, at: nat, swap: bool)
    requires lib.Valid() && name in lib.structs && at <= |data|
    requires TakeStatements(lib, name, |lib.structs[name].program|, data, at, swap).Some?
    ensures Typed(lib, StructOf(name), Record(TakeStatements(lib, name, |lib.structs[name].program|, data, at,
      swap).value.0))
  {
    hide TakeStatements;
    MembersAreTyped(lib, name, |lib.structs[name].program|, data, at, swap);
  }

  /** The record of a row that the interpreter reads shows exactly the compiled values, in order, behind its
      flags and version: if and only if no field's name is taken when it is filed, in the row itself and in
      every record that lies in it. */
  lemma {:induction false} RowsAgree(ctx: Context, lib: Library, def: string, flags: int, version: int, data: seq<byte>)
    requires Compiles(ctx, lib) && "BaseDef" in ctx.structures && def in ctx.defs
    requires "BaseDef" in lib.structs && def in lib.structs && CompiledRow(lib, def, data, true).Some?
    requires RowKnown(ctx, def, CompiledRow(lib, def, data, true).value)
    ensures var row, base, own := CompiledRow(lib, def, data, true).value, ctx.structures["BaseDef"], ctx.defs[def];
      && |row.0| == |base| && |row.1| == |own|
      && (Erased(RowRecord(ctx, def, row, flags, version)) == [Integer(flags), Integer(version)] + row.0 + row.1 <==>
          RowNamesNew(base, own) && AllClear(ctx, base, row.0) && AllClear(ctx, own, row.1))
  {
    hide TakeStatements, Fill, Put, RowStart, Compiles, Body, Erased, NamesNew, Tidy, UsedAfter, Typed, ComeThrough;
    hide FieldsKnown, AllClear;
    BodiesOf(ctx, lib, def);
    LibraryValid(ctx, lib);
    var base, own := ctx.structures["BaseDef"], ctx.defs[def];
    var row := CompiledRow(lib, def, data, true).value;
    var start := RowStart(flags, version);
    RowStartIsTidy(flags, version);
    RowPartTyped(lib, "BaseDef", data, 0, true);
    var next := TakeStatements(lib, "BaseDef", |base|, data, 0, true).value.1;
    RowPartTyped(lib, def, data, next, true);
    FieldsErase(ctx, lib, "BaseDef", Record(row.0));
    FieldsErase(ctx, lib, def, Record(row.1));
    TwoFills(ctx, base, row.0, own, row.1, start);
    assert [Integer(flags), Integer(version)] + row.0 + row.1 == Erased(start) + row.0 + row.1;
  }

  lemma {:induction false} TwoFills(ctx: Context, baseFields: seq<Field>, inherited: seq<Value>,
                                    ownFields: seq<Field>, own: seq<Value>, start: Container)
    requires Tidy(start) && |inherited| == |baseFields| && |own| == |ownFields|
    ensures var used := UsedAfter(start.fields.Keys, baseFields, |baseFields|);
      Erased(Fill(ctx, ownFields, Record(own), |ownFields|, Fill(ctx, baseFields, Record(inherited), |baseFields|,
        start)))
          == Erased(start) + inherited + own
      <==> NamesNew(start.fields.Keys, baseFields, |baseFields|) && NamesNew(used, ownFields, |ownFields|)
           && ComeThrough(ctx, baseFields, inherited) && ComeThrough(ctx, ownFields, own)
  {
    hide Fill, NamesNew, Tidy, UsedAfter, EraseFields, Views;
    var withBase := Fill(ctx, baseFields, Record(inherited), |baseFields|, start);
    OrderLength(ctx, baseFields, Record(inherited), |baseFields|, start);
    OrderLength(ctx, ownFields, Record(own), |ownFields|, withBase);
    FillUses(ctx, baseFields, Record(inherited), |baseFields|, start);
    if NamesNew(start.fields.Keys, baseFields, |baseFields|) {
      FieldsInOrder(ctx, baseFields, Record(inherited), |baseFields|, start);
      var views := Views(ctx, baseFields, inherited, |baseFields|);
      if NamesNew(withBase.fields.Keys, ownFields, |ownFields|) {
        FieldsInOrder(ctx, ownFields, Record(own), |ownFields|, withBase);
        BothTails(Erased(start), views, Views(ctx, ownFields, own, |ownFields|), inherited, own);
      }
    }
  }

  lemma BothTails(front: seq<Value>, a: seq<Value>, b: seq<Value>, c: seq<Value>, d: seq<Value>)
    requires |a| == |c|
    ensures front + a + b == front + c + d <==> a == c && b == d
  {
    SameTail(front + c, b, d);
    if front + a + b == front + c + d {
      assert a == (front + a + b)[|front|..|front| + |a|] == (front + c + d)[|front|..|front| + |a|] == c;
    }
  }

  // ---- a row that loses something ----

  /** A def with a field called `version` loses the version that the row started with. */
  lemma VersionIsLost(flags: int, version: int, id: int, n: int)
    ensures var base, own := [NUMBER.(name := "id")], [NUMBER.(name := "version")];
      var ctx := Context(map["BaseDef" := base], map["Items" := own], map[]);
      && RowHasId(base, own)
      && Erased(RowRecord(ctx, "Items", ([Integer(id)], [Integer(n)]), flags, version))
           == [Integer(flags), Integer(n), Integer(id)]
  {
    hide Fill, Put, RowStart, Present;
    var base, own := [NUMBER.(name := "id")], [NUMBER.(name := "version")];
    var ctx := Context(map["BaseDef" := base], map["Items" := own], map[]);
    var start := RowStart(flags, version);
    OneFiled(ctx, base, [Integer(id)], start);
    NumberShown(ctx, base[0], id);
    OneFiled(ctx, own, [Integer(n)], Put(start, "id", UnsignedValue(id)));
    NumberShown(ctx, own[0], n);
    VersionPut(flags, version, id, n);
    assert IdAfter(false, base, 1) && IdAfter(true, own, 1) by { assert IdAfter(true, own, 0); }
    assert RowHasId(base, own);
  }

  lemma VersionPut(flags: int, version: int, id: int, n: int)
    ensures Erased(Put(Put(RowStart(flags, version), "id", UnsignedValue(id)), "version", UnsignedValue(n)))
         == [Integer(flags), Integer(n), Integer(id)]
  {
    hide EraseFields;
    var c := Put(Put(RowStart(flags, version), "id", UnsignedValue(id)), "version", UnsignedValue(n));
    RowStartIsTidy(flags, version);
    assert c.order == ["flags", "version", "id"] && c.fields["flags"] == UnsignedValue(flags);
    assert c.fields["version"] == UnsignedValue(n) && c.fields["id"] == UnsignedValue(id);
    ThreeErased(c, flags, n, id);
  }

  lemma ThreeErased(c: Container, a: int, b: int, d: int)
    requires |c.order| == 3 && c.order[0] in c.fields && c.order[1] in c.fields && c.order[2] in c.fields
    requires c.fields[c.order[0]] == UnsignedValue(a) && c.fields[c.order[1]] == UnsignedValue(b)
    requires c.fields[c.order[2]] == UnsignedValue(d)
    ensures Erased(c) == [Integer(a), Integer(b), Integer(d)]
  {
    assert EraseFields(c, 3) == EraseFields(c, 2) + [Integer(d)];
    assert EraseFields(c, 2) == EraseFields(c, 1) + [Integer(b)];
    assert EraseFields(c, 1) == EraseFields(c, 0) + [Integer(a)];
  }
}
