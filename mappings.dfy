/** The static table from marshmallow field class to TypeScript type name. */
module Mappings {

  /** The marshmallow field classes the table knows, plus a catch-all for any
      other class (a custom field, a subclass, or the absent container `None`). */
  datatype FieldClass =
    | Bool | Boolean | Constant | DateTime | Decimal | Dict | Email | Field
    | Float | Function | Int | Integer | List | LocalDateTime | Mapping
    | Method | Nested | Number | Raw | Str | String | TimeDelta | Url | UUID
    | Unknown(name: string)

  /** The seven TypeScript type names the table can produce. */
  const TsTableTypes: set<string> :=
    {"boolean", "number", "string", "Date", "any", "any[]", "object"}

  /** The table itself, entry for entry (the repeated `Url` entry included). */
  const MAPPINGS: map<FieldClass, string> := map[
    Bool := "boolean",
    Boolean := "boolean",
    Constant := "any",
    DateTime := "Date",
    Decimal := "number",
    Dict := "object",
    Email := "string",
    Field := "any",
    Float := "number",
    Function := "any",
    Int := "number",
    Integer := "number",
    List := "any[]",
    LocalDateTime := "Date",
    Mapping := "any",
    Method := "any",
    Nested := "any",
    Number := "number",
    Raw := "any",
    Str := "string",
    String := "string",
    TimeDelta := "any",
    Url := "string",
    Url := "string",
    UUID := "string"
  ]

  /** `MAPPINGS.get(c, default)`. */
  function Get(c: FieldClass, default: string): string
  {
    if c in MAPPINGS then MAPPINGS[c] else default
  }

  /** Every known class has an entry; a class outside the table has none. */
  lemma {:induction false} MappingsDomain(c: FieldClass)
    ensures c in MAPPINGS <==> !c.Unknown?
  {
    match c
    case Unknown(_) =>
    case _ =>
  }

  /** Every value in the table is one of the seven TypeScript names. */
  lemma MappingsValues(c: FieldClass)
    requires c in MAPPINGS
    ensures MAPPINGS[c] in TsTableTypes
  {
  }

  /** A lookup with the default `'any'` always yields one of the seven names,
      and it yields the default exactly for a class outside the table. */
  lemma {:induction false} GetAnyInTable(c: FieldClass)
    ensures Get(c, "any") in TsTableTypes
    ensures c.Unknown? ==> Get(c, "any") == "any"
  {
    MappingsDomain(c);
    if c in MAPPINGS {
      MappingsValues(c);
    }
  }

  /** Exactly `Bool` and `Boolean` map to `boolean`. */
  lemma {:induction false} BooleanClasses(c: FieldClass)
    ensures c in MAPPINGS && MAPPINGS[c] == "boolean" <==> c == Bool || c == Boolean
  {
    MappingsDomain(c);
  }

  /** Exactly `Decimal`, `Float`, `Int`, `Integer` and `Number` map to `number`. */
  lemma {:induction false} NumberClasses(c: FieldClass)
    ensures c in MAPPINGS && MAPPINGS[c] == "number"
        <==> c == Decimal || c == Float || c == Int || c == Integer || c == Number
  {
    MappingsDomain(c);
  }

  /** Exactly `Str`, `String`, `Email`, `Url` and `UUID` map to `string`. */
  lemma {:induction false} StringClasses(c: FieldClass)
    ensures c in MAPPINGS && MAPPINGS[c] == "string"
        <==> c == Str || c == String || c == Email || c == Url || c == UUID
  {
    MappingsDomain(c);
  }

  /** Exactly `DateTime` and `LocalDateTime` map to `Date`. */
  lemma {:induction false} DateClasses(c: FieldClass)
    ensures c in MAPPINGS && MAPPINGS[c] == "Date" <==> c == DateTime || c == LocalDateTime
  {
    MappingsDomain(c);
  }

  /** `List` is the only class mapped to `any[]`, `Dict` the only one mapped to `object`. */
  lemma {:induction false} ContainerClasses(c: FieldClass)
    ensures c in MAPPINGS && MAPPINGS[c] == "any[]" <==> c == List
    ensures c in MAPPINGS && MAPPINGS[c] == "object" <==> c == Dict
  {
    MappingsDomain(c);
  }

  /** Exactly `Constant`, `Field`, `Function`, `Mapping`, `Method`, `Nested`,
      `Raw` and `TimeDelta` carry an explicit `any` entry. */
  lemma {:induction false} AnyClasses(c: FieldClass)
    ensures c in MAPPINGS && MAPPINGS[c] == "any"
        <==> (c == Constant || c == Field || c == Function || c == Mapping ||
              c == Method || c == Nested || c == Raw || c == TimeDelta)
  {
    MappingsDomain(c);
  }
}
