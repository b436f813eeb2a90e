/** The records that the interpreter fills, and what of the compiled values they show. */
module DynamicRecord {
  import opened Bytes
  import opened CompiledFormat
  import opened Directives

  /** What the directives declare, as the interpreter looks it up. */
  datatype Context = Context(structures: map<string, seq<Field>>, defs: map<string, seq<Field>>,
                             enums: map<string, map<int, string>>)

  datatype PolymorphicData = NoData | IdData(id: int) | KeyData(def: string, id: int)

  datatype Dynamic =
    | NoValue
    | SignedValue(n: int)
    | UnsignedValue(n: int)
    | EnumValue(definition: string, n: int)
    | StringValue(s: seq<byte>)
    | ArrayValue(values: seq<Dynamic>)
    | KeyValue(def: string, id: int)
    | BoolValue(b: bool)
    | DoubleValue(bytes: seq<byte>)
    | AssetValue(id: int)
    | StructValue(container: Container)
    | PolymorphicValue(definition: string, n: int, data: PolymorphicData)

  /** `ESOFieldContainer`. */
  datatype Container = Container(fields: map<string, Dynamic>, order: seq<string>)

  const EMPTY := Container(map[], [])

  function Decimal(n: nat): string {
    var digit := ["0123456789"[n % 10]];
    if n < 10 then digit else Decimal(n / 10) + digit
  }

  /** Decimal digits, the highest first and never a leading zero, that stand for the number. */
  lemma {:induction false} DecimalSpells(n: nat)
    ensures Spelled(Decimal(n)) == n && (n > 0 ==> Decimal(n)[0] != '0')
    ensures forall i :: 0 <= i < |Decimal(n)| ==> '0' <= Decimal(n)[i] <= '9'
  {
    DigitSpelled(n % 10);
    if n >= 10 {
      DecimalSpells(n / 10);
      var s := Decimal(n);
      assert s[..|s| - 1] == Decimal(n / 10);
    }
  }

  lemma DigitSpelled(d: nat)
    requires d < 10
    ensures '0' <= "0123456789"[d] <= '9' && "0123456789"[d] as int == '0' as int + d
  {
  }

  ghost function Spelled(s: string): int {
    if s == "" then 0 else 10 * Spelled(s[..|s| - 1]) + (s[|s| - 1] as int - '0' as int)
  }

  /** The name under which `addField` files a value in a container of `size` fields. */
  function RealName(size: nat, name: string): string {
    if name == "" then "unk_" + Decimal(size + 1) else name
  }

  /** `addField`, and the assignment through the reference it returns: a name that is taken keeps its place
      and loses its value. */
  function Put(c: Container, name: string, value: Dynamic): Container {
    var realName := RealName(|c.fields|, name);
    Container(c.fields[realName := value], if realName in c.fields then c.order else c.order + [realName])
  }

  /** The part of an enum value's name before the first `$`. */
  function DefName(name: string): (r: string)
    ensures r <= name && '$' !in r && (|r| < |name| ==> name[|r|] == '$')
  {
    if name == "" || name[0] == '$' then "" else [name[0]] + DefName(name[1..])
  }

  /** What becomes of the id of a polymorphic reference: the selector's name decides. */
  ghost function PolymorphicDataOf(names: map<int, string>, selector: int, id: int): PolymorphicData {
    if selector !in names then IdData(id)
    else if DefName(names[selector]) == "NULL" then if id == 0 then NoData else IdData(id)
    else KeyData(DefName(names[selector]), id)
  }

  /** The interpreter's view of a value of a field of type `t`. */
  ghost function Present(ctx: Context, t: FieldType, f: Field, v: Value): Dynamic
    decreases v, 1
  {
    match v
    case Integer(n) =>
      (match t
       case Int8 | Int16 | Int32 | Int64 => SignedValue(n)
       case UInt8 | UInt16 | UInt32 | UInt64 => UnsignedValue(n)
       case Enum => EnumValue(f.typeName, n)
       case ForeignKey => KeyValue(f.typeName, n)
       case AssetReference => AssetValue(n)
       case _ => NoValue)
    case Real(bytes) => DoubleValue(bytes)
    case Text(s) => StringValue(s)
    case Flag(b) => BoolValue(b)
    case Reference(selector, id) =>
      if f.typeName in ctx.enums then
        PolymorphicValue(f.typeName, selector, PolymorphicDataOf(ctx.enums[f.typeName], selector, id))
      else NoValue
    case Many(values) => ArrayValue(PresentElements(ctx, f, v, |values|))
    case Record(values) =>
      if f.typeName in ctx.structures && |ctx.structures[f.typeName]| == |values|
      then StructValue(Fill(ctx, ctx.structures[f.typeName], v, |values|, EMPTY))
      else NoValue
  }

  ghost function PresentElements(ctx: Context, f: Field, v: Value, n: nat): (r: seq<Dynamic>)
    requires v.Many? && n <= |v.values|
    ensures |r| == n
    decreases v, 0, n
  {
    if n == 0 then [] else PresentElements(ctx, f, v, n - 1) + [Present(ctx, f.arrayType, f, v.values[n - 1])]
  }

  /** The container with the first `n` members of a record added. */
  ghost function Fill(ctx: Context, fields: seq<Field>, v: Value, n: nat, c: Container): Container
    requires v.Record? && n <= |v.values| && n <= |fields|
    decreases v, 0, n
  {
    if n == 0 then c
    else
      var f := fields[n - 1];
      Put(Fill(ctx, fields, v, n - 1, c), f.name, Present(ctx, f.fieldType, f, v.values[n - 1]))
  }

  // ---- back from the interpreter's view ----

  ghost function IdOf(d: PolymorphicData): int {
    match d case NoData => 0 case IdData(id) => id case KeyData(_, id) => id
  }

  ghost function Erase(d: Dynamic): Value
    decreases d, 1
  {
    match d
    case NoValue => Flag(false)
    case SignedValue(n) => Integer(n)
    case UnsignedValue(n) => Integer(n)
    case EnumValue(_, n) => Integer(n)
    case StringValue(s) => Text(s)
    case ArrayValue(values) => Many(EraseElements(d, |values|))
    case KeyValue(_, id) => Integer(id)
    case BoolValue(b) => Flag(b)
    case DoubleValue(bytes) => Real(bytes)
    case AssetValue(id) => Integer(id)
    case StructValue(container) => Record(EraseFields(container, |container.order|))
    case PolymorphicValue(_, n, data) => Reference(n, IdOf(data))
  }

  ghost function EraseElements(d: Dynamic, n: nat): (r: seq<Value>)
    requires d.ArrayValue? && n <= |d.values|
    ensures |r| == n
    decreases d, 0, n
  {
    if n == 0 then [] else EraseElements(d, n - 1) + [Erase(d.values[n - 1])]
  }

  /** The values of the first `n` fields of a container, in `fieldOrder`. */
  ghost function EraseFields(c: Container, n: nat): (r: seq<Value>)
    requires n <= |c.order|
    ensures |r| == n
    decreases c, 0, n
  {
    if n == 0 then []
    else
      var name := c.order[n - 1];
      EraseFields(c, n - 1) + [if name in c.fields then Erase(c.fields[name]) else Flag(false)]
  }

  ghost function Erased(c: Container): seq<Value> {
    EraseFields(c, |c.order|)
  }
}
