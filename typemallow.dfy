/** The generator proper: the field type resolver (`_get_ts_type`), the
    interface synthesizer (`__get_ts_interface`), the schema registry filled
    by the `ts_interface` decorator, and the text `generate_ts` writes. */
module Typemallow {
  import Mappings
  import StrUtil
  import TsSyntax

  // ---------------------------------------------------------------------------
  // Fields

  /** The classes a plain field can have: every field class except the three
      the resolver treats structurally. */
  type PlainClass = c: Mappings.FieldClass | !(c.Nested? || c.List? || c.Dict?)
    witness Mappings.Bool

  /** A declared marshmallow field, as far as the generator looks at it. An
      absent Dict key or value container (`None`) is `Plain(Unknown("NoneType"))`. */
  datatype Field =
    | Plain(cls: PlainClass)
    | Nested(nested: string, many: bool)
    | List(container: Field)
    | Dict(keyContainer: Field, valueContainer: Field)

  /** The class of a field, the key used to look it up in the table. */
  function ClassOf(f: Field): Mappings.FieldClass
  {
    match f
    case Plain(cls) => cls
    case Nested(_, _) => Mappings.Nested
    case List(_) => Mappings.List
    case Dict(_, _) => Mappings.Dict
  }

  /** `MAPPINGS.get(type(f), 'any')`. */
  function TableType(f: Field): string
  {
    Mappings.Get(ClassOf(f), "any")
  }

  // ---------------------------------------------------------------------------
  // Field type resolver

  /** `_get_ts_type`: the TypeScript type text of a field. A Nested field gives
      its target's name as is, with `[]` when it holds many; a List gives its
      container's name (Nested) or table entry followed by `[]`; a Dict gives an
      index signature whose key is the table entry of the key container and whose
      value is the resolved value container; anything else its table entry. */
  function GetTsType(f: Field): string
  {
    match f
    case Nested(nested, many) => nested + (if many then "[]" else "")
    case List(container) =>
      if container.Nested? then container.nested + "[]"
      else TableType(container) + "[]"
    case Dict(key, value) => "{[key: " + TableType(key) + "]: " + GetTsType(value) + "}"
    case Plain(cls) => Mappings.Get(cls, "any")
  }

  /** The type expression a table entry spells: `any[]` is an array of `any`,
      every other entry a plain name. */
  function TableTypeOf(entry: string): TsSyntax.TsType
  {
    if entry == "any[]" then TsSyntax.Array(TsSyntax.Name("any")) else TsSyntax.Name(entry)
  }

  /** The TypeScript type a field stands for, as a type expression. */
  function TypeOf(f: Field): TsSyntax.TsType
  {
    match f
    case Nested(nested, many) =>
      if many then TsSyntax.Array(TsSyntax.Name(nested)) else TsSyntax.Name(nested)
    case List(container) =>
      TsSyntax.Array(if container.Nested? then TsSyntax.Name(container.nested)
                     else TableTypeOf(TableType(container)))
    case Dict(key, value) => TsSyntax.Index(TableTypeOf(TableType(key)), TypeOf(value))
    case Plain(cls) => TableTypeOf(Mappings.Get(cls, "any"))
  }

  /** Every nested-schema name the resolver writes out is a readable identifier. */
  predicate TargetsReadable(f: Field)
  {
    match f
    case Nested(nested, _) => TsSyntax.IsIdent(nested)
    case List(container) => container.Nested? ==> TsSyntax.IsIdent(container.nested)
    case Dict(_, value) => TargetsReadable(value)
    case Plain(_) => true
  }

  /** The resolver spells exactly the type expression the field stands for. */
  lemma {:induction false} GetTsTypeSpellsTypeOf(f: Field)
    ensures GetTsType(f) == TsSyntax.Render(TypeOf(f))
  {
    match f
    case Dict(_, value) => GetTsTypeSpellsTypeOf(value);
    case _ =>
  }

  /** Table entries are identifiers, and `any[]` an array of one. */
  lemma TableTypeWellNamed(f: Field)
    ensures TsSyntax.WellNamed(TableTypeOf(TableType(f)))
  {
    Mappings.GetAnyInTable(ClassOf(f));
    var e := TableType(f);
    assert TsSyntax.IsIdent("any") by {
      assert forall i :: 0 <= i < 3 ==> "any"[i] in "any";
    }
    assert e != "any[]" ==> TsSyntax.IsIdent(e) by {
      if e == "boolean" {
        assert forall i :: 0 <= i < |e| ==> e[i] in "boolean";
      } else if e == "number" {
        assert forall i :: 0 <= i < |e| ==> e[i] in "number";
      } else if e == "string" {
        assert forall i :: 0 <= i < |e| ==> e[i] in "string";
      } else if e == "Date" {
        assert forall i :: 0 <= i < |e| ==> e[i] in "Date";
      } else if e == "object" {
        assert forall i :: 0 <= i < |e| ==> e[i] in "object";
      }
    }
  }

  lemma {:induction false} TypeOfWellNamed(f: Field)
    requires TargetsReadable(f)
    ensures TsSyntax.WellNamed(TypeOf(f))
  {
    match f
    case Nested(_, _) =>
    case List(container) => TableTypeWellNamed(container);
    case Dict(key, value) => TableTypeWellNamed(key); TypeOfWellNamed(value);
    case Plain(_) => TableTypeWellNamed(f);
  }

  /** The resolver's text reads back as the type the field stands for, so the
      text determines the type: nesting of arrays and index signatures is never
      ambiguous, however deep the Dict values go. */
  lemma {:induction false} ResolvedTypeParses(f: Field)
    requires TargetsReadable(f)
    ensures TsSyntax.Parse(GetTsType(f)) == TsSyntax.Some(TypeOf(f))
  {
    GetTsTypeSpellsTypeOf(f);
    TypeOfWellNamed(f);
    TsSyntax.ParseRender(TypeOf(f));
  }

  /** Two fields with the same resolved text stand for the same type. */
  lemma {:induction false} ResolvedTypeDetermines(f: Field, g: Field)
    requires TargetsReadable(f) && TargetsReadable(g)
    requires GetTsType(f) == GetTsType(g)
    ensures TypeOf(f) == TypeOf(g)
  {
    ResolvedTypeParses(f);
    ResolvedTypeParses(g);
  }

  /** A Nested field resolves to its target's name, an array of it exactly when
      the field holds many. */
  lemma {:induction false} NestedResolves(nested: string, many: bool)
    ensures GetTsType(Nested(nested, many)) ==
            TsSyntax.Render(if many then TsSyntax.Array(TsSyntax.Name(nested)) else TsSyntax.Name(nested))
    ensures TsSyntax.IsIdent(nested) ==>
            TsSyntax.Parse(GetTsType(Nested(nested, many))) ==
            TsSyntax.Some(if many then TsSyntax.Array(TsSyntax.Name(nested)) else TsSyntax.Name(nested))
    ensures GetTsType(Nested(nested, many)) == nested <==> !many
  {
    GetTsTypeSpellsTypeOf(Nested(nested, many));
    if TsSyntax.IsIdent(nested) {
      ResolvedTypeParses(Nested(nested, many));
    }
  }

  /** A List is always an array of one level more than its element's entry: the
      container's own `many` is ignored, a List element gives `any[][]` and a
      Dict element `object[]`. */
  lemma ListResolves(container: Field, nested: string, many: bool)
    ensures GetTsType(List(Nested(nested, many))) == GetTsType(Nested(nested, true))
    ensures GetTsType(List(List(container))) == "any[][]"
    ensures GetTsType(List(Dict(container, container))) == "object[]"
    ensures !container.Nested? ==> GetTsType(List(container)) == TableType(container) + "[]"
  {
    Mappings.ContainerClasses(Mappings.List);
    Mappings.ContainerClasses(Mappings.Dict);
    assert TableType(List(container)) == "any[]";
    assert TableType(Dict(container, container)) == "object";
  }

  /** A Dict's key is written as the table entry of the key container's class
      and its value as the full resolution of the value container. */
  lemma {:induction false} DictResolves(key: Field, value: Field)
    ensures GetTsType(Dict(key, value)) ==
            TsSyntax.Render(TsSyntax.Index(TableTypeOf(TableType(key)), TypeOf(value)))
    ensures TargetsReadable(value) ==>
            TsSyntax.Parse(GetTsType(Dict(key, value))) ==
            TsSyntax.Some(TsSyntax.Index(TableTypeOf(TableType(key)), TypeOf(value)))
    ensures key.Nested? ==> GetTsType(Dict(key, value)) == "{[key: any]: " + GetTsType(value) + "}"
  {
    GetTsTypeSpellsTypeOf(Dict(key, value));
    if TargetsReadable(value) {
      ResolvedTypeParses(Dict(key, value));
    }
    if key.Nested? {
      NestedKeyIsAny(key);
    }
  }

  lemma NestedKeyIsAny(key: Field)
    requires key.Nested?
    ensures TableType(key) == "any"
  {
    Mappings.AnyClasses(Mappings.Nested);
  }

  /** Any other field resolves to its table entry, and to `any` for a class
      outside the table; resolution never fails. */
  lemma {:induction false} PlainResolves(cls: PlainClass)
    ensures GetTsType(Plain(cls)) in Mappings.TsTableTypes
    ensures cls.Unknown? ==> GetTsType(Plain(cls)) == "any"
    ensures cls in Mappings.MAPPINGS ==> GetTsType(Plain(cls)) == Mappings.MAPPINGS[cls]
  {
    Mappings.GetAnyInTable(cls);
  }

  // ---------------------------------------------------------------------------
  // Interface synthesizer

  /** A schema class: its `__name__`, whether it subclasses marshmallow's
      `Schema`, and its `_declared_fields` in declaration order. */
  datatype SchemaClass = SchemaClass(name: string, isSchema: bool, declaredFields: seq<(string, Field)>)

  const SchemaWord := "Schema"

  /** The interface name: the class name with every `Schema` removed. */
  function InterfaceName(schema: SchemaClass): string
  {
    StrUtil.RemoveAll(schema.name, SchemaWord)
  }

  /** The type written for a declared field. A Nested field here takes its
      target string with `Schema` removed, unlike a Nested reached through
      the resolver, which keeps the name as it is. */
  function FieldTsType(f: Field): string
  {
    if f.Nested? then StrUtil.RemoveAll(f.nested, SchemaWord) + (if f.many then "[]" else "")
    else GetTsType(f)
  }

  /** A declared field is typed as the resolver would type it, except exactly
      when it is a Nested field whose target contains `Schema`. */
  lemma FieldTsTypeAgrees(f: Field)
    ensures FieldTsType(f) == GetTsType(f) <==> !(f.Nested? && StrUtil.Occurs(f.nested, SchemaWord))
  {
    if f.Nested? {
      StrUtil.RemoveAllIdentity(f.nested, SchemaWord);
      SuffixCancel(StrUtil.RemoveAll(f.nested, SchemaWord), f.nested, if f.many then "[]" else "");
    }
  }

  /** Two texts with the same ending are equal exactly when their beginnings are. */
  lemma SuffixCancel(a: string, b: string, c: string)
    ensures a + c == b + c <==> a == b
  {
    if a + c == b + c {
      StrUtil.SplitAt(a, c);
      StrUtil.SplitAt(b, c);
    }
  }

  /** `\t<key>: <type>;`: one line of the interface body. */
  function FieldLine(key: string, f: Field): string
  {
    "\t" + key + ": " + FieldTsType(f) + ";"
  }

  /** One line per declared field, in declaration order. */
  function FieldLines(fields: seq<(string, Field)>): (lines: seq<string>)
    ensures |lines| == |fields|
  {
    seq(|fields|, i requires 0 <= i < |fields| => FieldLine(fields[i].0, fields[i].1))
  }

  /** The interface text for one schema. */
  function InterfaceText(schema: SchemaClass): string
  {
    "export interface " + InterfaceName(schema) + " {\n"
      + StrUtil.Join(FieldLines(schema.declaredFields), "\n") + "\n}\n\n"
  }

  /** `__get_ts_interface`: collects the field lines in a loop, then joins them. */
  method GetTsInterface(schema: SchemaClass) returns (text: string)
    ensures text == InterfaceText(schema)
  {
    var name := StrUtil.RemoveAll(schema.name, SchemaWord);
    var fields := schema.declaredFields;
    var tsFields: seq<string> := [];
    var i := 0;
    while i < |fields|
      invariant 0 <= i <= |fields|
      invariant |tsFields| == i
      invariant forall j :: 0 <= j < i ==> tsFields[j] == FieldLine(fields[j].0, fields[j].1)
    {
      var (key, value) := fields[i];
      var tsType: string;
      if value.Nested? {
        tsType := StrUtil.RemoveAll(value.nested, SchemaWord);
        if value.many {
          tsType := tsType + "[]";
        }
      } else {
        tsType := GetTsType(value);
      }
      tsFields := tsFields + ["\t" + key + ": " + tsType + ";"];
      i := i + 1;
    }
    assert tsFields == FieldLines(fields);
    text := "export interface " + name + " {\n" + StrUtil.Join(tsFields, "\n") + "\n}\n\n";
  }

  lemma SchemaBorderFree()
    ensures StrUtil.BorderFree(SchemaWord)
  {
    forall k | 0 < k < |SchemaWord| ensures SchemaWord[k..] != SchemaWord[..|SchemaWord| - k] {
      assert SchemaWord[k..][0] != SchemaWord[..|SchemaWord| - k][0];
    }
  }

  /** A class named `<base>Schema` yields the interface name `base` when `base`
      has no `Schema` of its own, and in general the name `base` would give. */
  lemma {:induction false} SchemaSuffixDropped(base: string)
    ensures StrUtil.RemoveAll(base + SchemaWord, SchemaWord) == StrUtil.RemoveAll(base, SchemaWord)
    ensures !StrUtil.Occurs(base, SchemaWord) ==> StrUtil.RemoveAll(base + SchemaWord, SchemaWord) == base
  {
    SchemaBorderFree();
    StrUtil.RemoveAllAround(base, SchemaWord, "");
    assert base + SchemaWord + "" == base + SchemaWord;
    StrUtil.RemoveAllIdentity(base, SchemaWord);
  }

  /** The type of a top-level Nested field is its target with `Schema` removed,
      `[]` added exactly when it holds many; the same field reached through a
      List or a Dict value keeps `Schema`. */
  lemma NestedAsymmetry(base: string, many: bool)
    requires !StrUtil.Occurs(base, SchemaWord)
    ensures FieldTsType(Nested(base + SchemaWord, many)) == base + (if many then "[]" else "")
    ensures GetTsType(List(Nested(base + SchemaWord, many))) == base + SchemaWord + "[]"
    ensures GetTsType(Dict(Plain(Mappings.Str), Nested(base + SchemaWord, many)))
         == "{[key: string]: " + (base + SchemaWord + (if many then "[]" else "")) + "}"
  {
    SchemaSuffixDropped(base);
    NestedUnderStrDict(base + SchemaWord, many);
  }

  lemma NestedUnderStrDict(nested: string, many: bool)
    ensures GetTsType(Dict(Plain(Mappings.Str), Nested(nested, many)))
         == "{[key: string]: " + (nested + (if many then "[]" else "")) + "}"
  {
    Mappings.StringClasses(Mappings.Str);
    assert TableType(Plain(Mappings.Str)) == "string";
    assert "{[key: " + "string" + "]: " == "{[key: string]: ";
  }

  /** No newline in a field's resolved type unless one of its names has one. */
  predicate NamesSingleLine(f: Field)
  {
    match f
    case Nested(nested, _) => '\n' !in nested
    case List(container) => container.Nested? ==> '\n' !in container.nested
    case Dict(_, value) => NamesSingleLine(value)
    case Plain(_) => true
  }

  /** No name in the schema, its field keys or their types contains a newline. */
  predicate SchemaSingleLine(schema: SchemaClass)
  {
    && '\n' !in schema.name
    && forall i :: 0 <= i < |schema.declaredFields| ==>
         '\n' !in schema.declaredFields[i].0 && NamesSingleLine(schema.declaredFields[i].1)
  }

  lemma TableTypeSingleLine(f: Field)
    ensures '\n' !in TableType(f)
  {
    Mappings.GetAnyInTable(ClassOf(f));
  }

  lemma {:induction false} GetTsTypeSingleLine(f: Field)
    requires NamesSingleLine(f)
    ensures '\n' !in GetTsType(f)
  {
    match f
    case Nested(_, _) =>
    case List(container) => TableTypeSingleLine(container);
    case Dict(key, value) => TableTypeSingleLine(key); GetTsTypeSingleLine(value);
    case Plain(_) => TableTypeSingleLine(f);
  }

  lemma RemoveSchemaSingleLine(s: string)
    requires '\n' !in s
    ensures '\n' !in StrUtil.RemoveAll(s, SchemaWord)
  {
    if '\n' in StrUtil.RemoveAll(s, SchemaWord) {
      StrUtil.RemoveAllChars(s, SchemaWord, '\n');
    }
  }

  lemma FieldLineSingleLine(key: string, f: Field)
    requires '\n' !in key && NamesSingleLine(f)
    ensures '\n' !in FieldLine(key, f)
  {
    if f.Nested? {
      RemoveSchemaSingleLine(f.nested);
    } else {
      GetTsTypeSingleLine(f);
    }
  }

  /** Read line by line, the interface is its header, exactly one line per
      declared field in declaration order (none dropped, reordered or merged;
      a single empty line when there are no fields), the closing brace, and
      the blank line that separates it from the next interface. */
  lemma {:induction false} InterfaceLines(schema: SchemaClass)
    requires SchemaSingleLine(schema)
    ensures StrUtil.Split(InterfaceText(schema), '\n') ==
            ["export interface " + InterfaceName(schema) + " {"]
            + (if |schema.declaredFields| == 0 then [""] else FieldLines(schema.declaredFields))
            + ["}", "", ""]
  {
    var header := "export interface " + InterfaceName(schema) + " {";
    var lines := FieldLines(schema.declaredFields);
    var body := StrUtil.Join(lines, "\n");
    var tail := "}" + "\n" + ("" + "\n" + "");
    InterfaceTextShape(schema);
    RemoveSchemaSingleLine(schema.name);
    assert '\n' !in header;
    StrUtil.SplitNoSep(header, '\n');
    TailSplit();
    StrUtil.SplitAround(body, '\n', tail);
    StrUtil.SplitAround(header, '\n', body + "\n" + tail);
    if |lines| == 0 {
      StrUtil.SplitNoSep(body, '\n');
    } else {
      forall i | 0 <= i < |lines| ensures '\n' !in lines[i] {
        FieldLineSingleLine(schema.declaredFields[i].0, schema.declaredFields[i].1);
      }
      StrUtil.SplitJoin(lines, '\n');
    }
  }

  /** The interface text cut at its first and last two newlines. */
  lemma InterfaceTextShape(schema: SchemaClass)
    ensures InterfaceText(schema)
         == ("export interface " + InterfaceName(schema) + " {") + "\n"
            + (StrUtil.Join(FieldLines(schema.declaredFields), "\n") + "\n" + ("}" + "\n" + ("" + "\n" + "")))
  {
    assert " {\n" == " {" + "\n";
    assert "\n}\n\n" == "\n" + ("}" + "\n" + ("" + "\n" + ""));
    Regroup("export interface " + InterfaceName(schema), " {", "\n", " {\n",
            StrUtil.Join(FieldLines(schema.declaredFields), "\n"),
            "}" + "\n" + ("" + "\n" + ""), "\n}\n\n");
  }

  lemma Regroup(x: string, y: string, n: string, s: string, body: string, t: string, u: string)
    requires s == y + n && u == n + t
    ensures x + s + body + u == (x + y) + n + (body + n + t)
  {
  }

  lemma TailSplit()
    ensures StrUtil.Split("}" + "\n" + ("" + "\n" + ""), '\n') == ["}", "", ""]
  {
    StrUtil.SplitNoSep("}", '\n');
    StrUtil.SplitNoSep("", '\n');
    StrUtil.SplitAround("", '\n', "");
    StrUtil.SplitAround("}", '\n', "" + "\n" + "");
  }

  /** The declared fields of the example class below. */
  function UserFields(profile: string): seq<(string, Field)>
  {
    [("id", Plain(Mappings.Integer)),
     ("tags", List(Plain(Mappings.String))),
     ("manager", Nested(profile + SchemaWord, false))]
  }

  /** The interface of a `<user>Schema` class with an integer `id`, a list of
      strings `tags` and a single nested `<profile>Schema` `manager`, line by
      line; the text is these lines joined by newlines. */
  lemma {:induction false} UserExample(user: string, profile: string)
    requires 'S' !in user && 'S' !in profile
    requires '\n' !in user && '\n' !in profile
    ensures StrUtil.Split(InterfaceText(SchemaClass(user + SchemaWord, true, UserFields(profile))), '\n')
         == ["export interface " + user + " {",
             "\tid: number;",
             "\ttags: string[];",
             "\tmanager: " + profile + ";",
             "}", "", ""]
  {
    var schema := SchemaClass(user + SchemaWord, true, UserFields(profile));
    StripExample(user);
    UserExampleLines(profile);
    var lines := FieldLines(UserFields(profile));
    ThreeLines(lines, "\tid: number;", "\ttags: string[];", "\tmanager: " + profile + ";");
    UserSingleLine(user, profile);
    InterfaceLines(schema);
    SevenLines("export interface " + user + " {",
               "\tid: number;", "\ttags: string[];", "\tmanager: " + profile + ";",
               "}", "", "");
  }

  lemma ThreeLines(lines: seq<string>, a: string, b: string, c: string)
    requires |lines| == 3 && lines[0] == a && lines[1] == b && lines[2] == c
    ensures lines == [a, b, c]
  {
  }

  lemma SevenLines(h: string, a: string, b: string, c: string, d: string, e: string, f: string)
    ensures [h] + [a, b, c] + [d, e, f] == [h, a, b, c, d, e, f]
  {
  }

  lemma UserSingleLine(user: string, profile: string)
    requires '\n' !in user && '\n' !in profile
    ensures SchemaSingleLine(SchemaClass(user + SchemaWord, true, UserFields(profile)))
  {
    var fields := UserFields(profile);
    assert '\n' !in user + SchemaWord;
    assert '\n' !in profile + SchemaWord;
    assert fields[2].1 == Nested(profile + SchemaWord, false);
  }

  lemma UserExampleLines(profile: string)
    requires 'S' !in profile && '\n' !in profile
    ensures FieldLines(UserFields(profile))[0] == "\tid: number;"
    ensures FieldLines(UserFields(profile))[1] == "\ttags: string[];"
    ensures FieldLines(UserFields(profile))[2] == "\tmanager: " + profile + ";"
  {
    var fields := UserFields(profile);
    var lines := FieldLines(fields);
    assert lines[0] == FieldLine("id", Plain(Mappings.Integer)) by {
      assert fields[0] == ("id", Plain(Mappings.Integer));
    }
    assert lines[1] == FieldLine("tags", List(Plain(Mappings.String))) by {
      assert fields[1] == ("tags", List(Plain(Mappings.String)));
    }
    assert lines[2] == FieldLine("manager", Nested(profile + SchemaWord, false)) by {
      assert fields[2] == ("manager", Nested(profile + SchemaWord, false));
    }
    IdLine();
    TagsLine();
    ManagerLine(profile);
  }

  lemma IdLine()
    ensures FieldLine("id", Plain(Mappings.Integer)) == "\tid: number;"
  {
    Mappings.NumberClasses(Mappings.Integer);
    assert FieldTsType(Plain(Mappings.Integer)) == "number";
  }

  lemma TagsLine()
    ensures FieldLine("tags", List(Plain(Mappings.String))) == "\ttags: string[];"
  {
    Mappings.StringClasses(Mappings.String);
    assert TableType(Plain(Mappings.String)) == "string";
    assert FieldTsType(List(Plain(Mappings.String))) == "string[]";
  }

  lemma ManagerLine(profile: string)
    requires 'S' !in profile
    ensures FieldLine("manager", Nested(profile + SchemaWord, false)) == "\tmanager: " + profile + ";"
  {
    StripExample(profile);
    assert FieldTsType(Nested(profile + SchemaWord, false)) == profile + "";
    assert profile + "" == profile;
  }

  /** The `UserSchema` / `ProfileSchema` instance of `UserExample`. */
  lemma UserSchemaExample()
    ensures StrUtil.Split(InterfaceText(SchemaClass("UserSchema", true, UserFields("Profile"))), '\n')
         == ["export interface User {", "\tid: number;", "\ttags: string[];", "\tmanager: Profile;",
             "}", "", ""]
  {
    UserExample("User", "Profile");
    UserSchemaSpelling();
  }

  /** The literal spellings `UserSchemaExample` substitutes into `UserExample`. */
  lemma UserSchemaSpelling()
    ensures "User" + SchemaWord == "UserSchema"
    ensures "export interface " + "User" + " {" == "export interface User {"
    ensures "\tmanager: " + "Profile" + ";" == "\tmanager: Profile;"
  {
  }

  lemma StripExample(base: string)
    requires 'S' !in base
    ensures StrUtil.RemoveAll(base + SchemaWord, SchemaWord) == base
  {
    forall i | 0 <= i && i + |SchemaWord| <= |base|
      ensures !StrUtil.OccursAt(base, SchemaWord, i)
    {
      assert base[i..i + |SchemaWord|][0] == base[i];
    }
    SchemaSuffixDropped(base);
  }

  // ---------------------------------------------------------------------------
  // Registry

  /** The decorator's `context` argument: one label, or a list of labels. */
  datatype Context = Label(ctx: string) | Labels(labels: seq<string>)

  function ContextLabels(context: Context): seq<string>
  {
    match context
    case Label(ctx) => [ctx]
    case Labels(labels) => labels
  }

  /** The classes registered under a label; none when the label is absent. */
  function Entries(schemas: map<string, seq<SchemaClass>>, ctx: string): seq<SchemaClass>
  {
    if ctx in schemas then schemas[ctx] else []
  }

  /** Create the label's list when absent, then append the class to it. */
  function AppendTo(schemas: map<string, seq<SchemaClass>>, ctx: string, cls: SchemaClass)
    : map<string, seq<SchemaClass>>
  {
    schemas[ctx := Entries(schemas, ctx) + [cls]]
  }

  /** Append the class once per label, in order. */
  function AppendToEach(schemas: map<string, seq<SchemaClass>>, labels: seq<string>, cls: SchemaClass)
    : map<string, seq<SchemaClass>>
  {
    if |labels| == 0 then schemas
    else AppendTo(AppendToEach(schemas, labels[..|labels| - 1], cls), labels[|labels| - 1], cls)
  }

  /** The registry after decorating `cls` with `ts_interface(context)`. */
  function Registered(schemas: map<string, seq<SchemaClass>>, cls: SchemaClass, context: Context)
    : map<string, seq<SchemaClass>>
  {
    if cls.isSchema then AppendToEach(schemas, ContextLabels(context), cls) else schemas
  }

  function Copies(cls: SchemaClass, n: nat): (r: seq<SchemaClass>)
    ensures |r| == n && forall i :: 0 <= i < n ==> r[i] == cls
  {
    seq(n, _ => cls)
  }

  lemma {:induction false} AppendToEachEntries(
    schemas: map<string, seq<SchemaClass>>, labels: seq<string>, cls: SchemaClass, ctx: string)
    ensures Entries(AppendToEach(schemas, labels, cls), ctx)
         == Entries(schemas, ctx) + Copies(cls, multiset(labels)[ctx])
  {
    if |labels| == 0 {
      assert Entries(schemas, ctx) + Copies(cls, 0) == Entries(schemas, ctx);
    } else {
      var init := labels[..|labels| - 1];
      var last := labels[|labels| - 1];
      assert labels == init + [last];
      AppendToEachEntries(schemas, init, cls, ctx);
      var n := multiset(init)[ctx];
      if ctx == last {
        assert multiset(labels)[ctx] == n + 1 by {
          assert multiset(labels) == multiset(init) + multiset{last};
        }
        assert Copies(cls, n) + [cls] == Copies(cls, n + 1);
      } else {
        assert multiset(labels)[ctx] == n by {
          assert multiset(labels) == multiset(init) + multiset{last};
        }
      }
    }
  }

  lemma {:induction false} AppendToEachKeys(
    schemas: map<string, seq<SchemaClass>>, labels: seq<string>, cls: SchemaClass)
    ensures AppendToEach(schemas, labels, cls).Keys == schemas.Keys + set l | l in labels
  {
    if |labels| > 0 {
      var init := labels[..|labels| - 1];
      var last := labels[|labels| - 1];
      assert labels == init + [last];
      AppendToEachKeys(schemas, init, cls);
      assert (set l | l in labels) == (set l | l in init) + {last};
    }
  }

  /** Decorating a Schema subclass appends it to each label's list once per
      time the label is given (repeats included), creating a list for a new
      label; every other label keeps its list. Decorating anything else changes
      nothing. */
  lemma {:induction false} RegisteredEntries(
    schemas: map<string, seq<SchemaClass>>, cls: SchemaClass, context: Context, ctx: string)
    ensures Entries(Registered(schemas, cls, context), ctx)
         == Entries(schemas, ctx)
            + (if cls.isSchema then Copies(cls, multiset(ContextLabels(context))[ctx]) else [])
    ensures Registered(schemas, cls, context).Keys
         == schemas.Keys + (if cls.isSchema then set l | l in ContextLabels(context) else {})
  {
    if cls.isSchema {
      AppendToEachEntries(schemas, ContextLabels(context), cls, ctx);
      AppendToEachKeys(schemas, ContextLabels(context), cls);
    } else {
      assert Entries(schemas, ctx) + [] == Entries(schemas, ctx);
    }
  }

  /** A single label gets the class exactly once at the end of its list; other
      labels are untouched. */
  lemma {:induction false} RegisteredUnderLabel(
    schemas: map<string, seq<SchemaClass>>, cls: SchemaClass, ctx: string, other: string)
    requires cls.isSchema
    requires other != ctx
    ensures Registered(schemas, cls, Label(ctx))[ctx] == Entries(schemas, ctx) + [cls]
    ensures Entries(Registered(schemas, cls, Label(ctx)), other) == Entries(schemas, other)
    ensures other in Registered(schemas, cls, Label(ctx)) <==> other in schemas
  {
    RegisteredEntries(schemas, cls, Label(ctx), ctx);
    RegisteredEntries(schemas, cls, Label(ctx), other);
    assert Copies(cls, 1) == [cls];
    assert Entries(schemas, other) + Copies(cls, 0) == Entries(schemas, other);
  }

  // ---------------------------------------------------------------------------
  // Generation

  datatype Result<T> = Ok(value: T) | KeyError(key: string)

  /** The list comprehension: one interface per class, in order. */
  function Interfaces(classes: seq<SchemaClass>): (texts: seq<string>)
    ensures |texts| == |classes|
  {
    seq(|classes|, i requires 0 <= i < |classes| => InterfaceText(classes[i]))
  }

  /** The interfaces of the given classes, concatenated in order with nothing
      between them. */
  function AllInterfaces(classes: seq<SchemaClass>): string
  {
    StrUtil.Join(Interfaces(classes), "")
  }

  /** The text `generate_ts` writes for a context, or the missing-key error
      when nothing was ever registered under it. */
  function Generate(schemas: map<string, seq<SchemaClass>>, context: string): (r: Result<string>)
    ensures r.KeyError? <==> context !in schemas
  {
    if context in schemas then Ok(AllInterfaces(schemas[context])) else KeyError(context)
  }

  lemma AllInterfacesSnoc(classes: seq<SchemaClass>, cls: SchemaClass)
    ensures AllInterfaces(classes + [cls]) == AllInterfaces(classes) + InterfaceText(cls)
  {
    assert Interfaces(classes + [cls]) == Interfaces(classes) + [InterfaceText(cls)];
    StrUtil.JoinSnoc(Interfaces(classes), InterfaceText(cls), "");
  }

  /** The output for a list of classes is the output for any prefix followed by
      the output for the rest: one interface per registration, in order. */
  lemma {:induction false} AllInterfacesAppend(first: seq<SchemaClass>, second: seq<SchemaClass>)
    ensures AllInterfaces(first + second) == AllInterfaces(first) + AllInterfaces(second)
    decreases |second|
  {
    if |second| == 0 {
      assert first + second == first;
    } else {
      var init := second[..|second| - 1];
      var last := second[|second| - 1];
      assert first + second == (first + init) + [last] by {
        assert second == init + [last];
      }
      AllInterfacesAppend(first, init);
      AllInterfacesSnoc(first + init, last);
      AllInterfacesSnoc(init, last);
      StrUtil.ConcatAssoc(AllInterfaces(first), AllInterfaces(init), InterfaceText(last));
    }
  }

  /** Decorating a Schema subclass adds its interface to the end of each given
      label's output, once per time the label is given (a label new to the
      registry starts from empty output instead of the missing-key error), and
      leaves every other label's output, or error, as it was. */
  lemma {:induction false} GenerateAfterRegister(
    schemas: map<string, seq<SchemaClass>>, cls: SchemaClass, context: Context, ctx: string)
    requires cls.isSchema
    ensures ctx in ContextLabels(context) ==>
              Generate(Registered(schemas, cls, context), ctx)
              == Ok(AllInterfaces(Entries(schemas, ctx))
                    + AllInterfaces(Copies(cls, multiset(ContextLabels(context))[ctx])))
    ensures ctx !in ContextLabels(context) ==>
              Generate(Registered(schemas, cls, context), ctx) == Generate(schemas, ctx)
  {
    RegisteredEntries(schemas, cls, context, ctx);
    AllInterfacesAppend(Entries(schemas, ctx), Copies(cls, multiset(ContextLabels(context))[ctx]));
    if ctx !in ContextLabels(context) {
      assert multiset(ContextLabels(context))[ctx] == 0;
      assert Entries(schemas, ctx) + Copies(cls, 0) == Entries(schemas, ctx);
    }
  }

  /** The registry the `ts_interface` decorator fills. */
  class Registry {
    var schemas: map<string, seq<SchemaClass>>

    constructor ()
      ensures schemas == map[]
    {
      schemas := map[];
    }

    /** `ts_interface(context)(cls)`: registers a Schema subclass under each
        label and returns the class unchanged. */
    method TsInterface(context: Context, cls: SchemaClass) returns (r: SchemaClass)
      modifies this
      ensures r == cls
      ensures schemas == Registered(old(schemas), cls, context)
    {
      if cls.isSchema {
        var labels := ContextLabels(context);
        var i := 0;
        while i < |labels|
          invariant 0 <= i <= |labels|
          invariant schemas == AppendToEach(old(schemas), labels[..i], cls)
        {
          var ctx := labels[i];
          if ctx !in schemas {
            schemas := schemas[ctx := []];
          }
          schemas := schemas[ctx := schemas[ctx] + [cls]];
          assert labels[..i + 1][..i] == labels[..i];
          i := i + 1;
        }
        assert labels[..|labels|] == labels;
      }
      r := cls;
    }

    /** The text part of `generate_ts`: the interfaces of the context's classes,
        built in registration order and concatenated. */
    method GenerateTs(context: string) returns (r: Result<string>)
      ensures r == Generate(schemas, context)
    {
      if context !in schemas {
        return KeyError(context);
      }
      var classes := schemas[context];
      var interfaces: seq<string> := [];
      var i := 0;
      while i < |classes|
        invariant 0 <= i <= |classes|
        invariant |interfaces| == i
        invariant forall j :: 0 <= j < i ==> interfaces[j] == InterfaceText(classes[j])
      {
        var text := GetTsInterface(classes[i]);
        interfaces := interfaces + [text];
        i := i + 1;
      }
      r := Ok(StrUtil.Join(interfaces, ""));
      assert interfaces == Interfaces(classes);
    }
  }
}
