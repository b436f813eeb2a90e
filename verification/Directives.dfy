/** What the directive files declare. */
module Directives {
  datatype FieldType =
    | Int8 | Int16 | Int32 | Int64 | UInt8 | UInt16 | UInt32 | UInt64 | Float
    | Enum | String | Array | ForeignKey | AssetReference | Boolean | Struct | PolymorphicReference

  /** `arrayType` matters for arrays only; `typeName` names the enum, structure or def of the field or,
      for an array, of its elements. */
  datatype Field = Field(fieldType: FieldType, arrayType: FieldType, typeName: string, name: string)

  datatype Directive =
    | StructureType(fields: seq<Field>)
    | DefType(defIndex: nat, version: nat, fields: seq<Field>)
    | EnumType(values: seq<int>, valueNames: map<int, string>)
    | DefAliasType(defIndex: nat, targetName: string)

  /** The type of a field, or of its elements if it is an array. */
  ghost function ElementType(f: Field): FieldType {
    if f.fieldType == Array then f.arrayType else f.fieldType
  }

  /** A member of an enum or structure type, or a polymorphic reference, can only be declared behind the
      definition it names; every other member can be declared without one. */
  ghost predicate HoldsDefinition(f: Field) {
    ElementType(f) == Enum || ElementType(f) == Struct || ElementType(f) == PolymorphicReference
  }

  /** A declaration mentions a type if it holds its definition or is a key to its records. */
  ghost predicate MentionsType(f: Field) {
    HoldsDefinition(f) || ElementType(f) == ForeignKey
  }
}
