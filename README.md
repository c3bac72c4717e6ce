# typemallow in Dafny

typemallow turns marshmallow schema classes into TypeScript `interface`
declarations. A class decorator, `ts_interface(context)`, records each schema
class under one or more context labels. `generate_ts(path, context)` then writes
one interface per class registered under `context`, in registration order. Each
interface has one `\tname: type;` line per declared field. The type comes from
a fixed table of marshmallow field classes (`MAPPINGS`). List, Dict and Nested
fields are resolved structurally.

This project models that core and proves properties of it:

- `mappings.dfy`, module `Mappings`: the table, a Dafny `map` over a closed
  `FieldClass` datatype. The datatype has the 24 marshmallow classes the table
  names and an `Unknown(name)` catch-all. `Get(c, default)` is `dict.get`.
- `strutil.dfy`, module `StrUtil`: the two Python string operations the code
  uses, with CPython's behaviour, and one it does not:
  - `str.replace(pat, '')` (`typemallow/__init__.py:67`, `:71`) is `RemoveAll`,
    a single left-to-right pass;
  - `sep.join` (`:80`, `:98`) is `Join`;
  - `Split`, CPython's `str.split` on a one-character separator, is not called
    by the code. It is here to read the generated text line by line, in
    `InterfaceLines` and in the `SplitJoin`/`JoinSplit` round trip.
- `tssyntax.dfy`, module `TsSyntax`: TypeScript type expressions, meaning a
  name, `T[]` and `{[key: K]: V}`. `Render` spells them the way the generator
  does and `Parse` reads them back. `ParseRender` proves the two round-trip, so
  the generated type text is never ambiguous.
- `typemallow.dfy`, module `Typemallow` (`typemallow/__init__.py`):
  - the resolver `GetTsType` (`_get_ts_type`), over the recursive `Field`
    datatype `Plain(cls) | Nested(nested, many) | List(container) |
    Dict(keyContainer, valueContainer)`;
  - the synthesizer: `InterfaceText` is its specification and the method
    `GetTsInterface` is its loop;
  - the registry, a class `Registry` whose `schemas: map<string,
    seq<SchemaClass>>` field the method `TsInterface` updates in place;
  - the generated text: `Generate` is its specification, and the read-only
    method `Registry.GenerateTs` runs the list comprehension.

`Plain` takes a `PlainClass`, a subset type of `FieldClass` that excludes
`Nested`, `List` and `Dict`. So a field that the resolver would treat
structurally cannot also pose as a plain field. A Dict whose key or value
container is `None` (marshmallow's default) is written
`Plain(Unknown("NoneType"))`. It resolves to `any`, as `type(None)` does in the
source.

A top-level Nested field removes `Schema` from its target string
(`typemallow/__init__.py:70-73`). A Nested under a List element or a Dict value
keeps the class's `__name__` unchanged (`:37`, `:43`). The lemma
`NestedAsymmetry` states this. This version of the code has no enum extraction
and writes no enum declarations.

The code imports `mappings` from `mappings.py`, but that file defines
`MAPPINGS` (`typemallow/__init__.py:2`, `typemallow/mappings.py:3`). The model
treats both names as the same table.

## Model

Definitions that only compute (`Get`, `GetTsType`, `RemoveAll`, `Join`, and
others) name in their row the lemmas that state their properties.

| member | source | states |
|---|---|---|
| `Mappings.Get` | typemallow/mappings.py:3-29 | `MAPPINGS.get(c, default)` as used at `__init__.py:46`, `:49` and `:53`; its domain and values are stated by the lemmas below |
| `Mappings.MappingsDomain` | typemallow/mappings.py:3-29 | a field class has a table entry exactly when it is one of the 24 known marshmallow classes; every other class has none |
| `Mappings.MappingsValues` | typemallow/mappings.py:3-29 | every value in the table is one of `boolean`, `number`, `string`, `Date`, `any`, `any[]`, `object` |
| `Mappings.GetAnyInTable` | typemallow/__init__.py:53 | a lookup with default `'any'` always gives one of those seven names, and gives `any` for any unknown class |
| `Mappings.BooleanClasses` | typemallow/mappings.py:4-5 | exactly `Bool` and `Boolean` map to `boolean` (both directions) |
| `Mappings.NumberClasses` | typemallow/mappings.py:3-29 | exactly `Decimal`, `Float`, `Int`, `Integer` and `Number` map to `number` |
| `Mappings.StringClasses` | typemallow/mappings.py:3-29 | exactly `Str`, `String`, `Email`, `Url` and `UUID` map to `string` |
| `Mappings.DateClasses` | typemallow/mappings.py:3-29 | exactly `DateTime` and `LocalDateTime` map to `Date` |
| `Mappings.ContainerClasses` | typemallow/mappings.py:3-29 | `List` is the only class mapped to `any[]`, and `Dict` the only one mapped to `object` |
| `Mappings.AnyClasses` | typemallow/mappings.py:3-29 | exactly `Constant`, `Field`, `Function`, `Mapping`, `Method`, `Nested`, `Raw` and `TimeDelta` have an explicit `any` entry |
| `Typemallow.GetTsType` | typemallow/__init__.py:35-55 | `_get_ts_type`, branch for branch: Nested, List (Nested element or table entry, plus `[]`), Dict (index signature, value resolved recursively), anything else its table entry; stated by `GetTsTypeSpellsTypeOf`, `ResolvedTypeParses` and the four `...Resolves` lemmas |
| `Typemallow.GetTsTypeSpellsTypeOf` | typemallow/__init__.py:35-55 | for every field, at any nesting depth, the resolver's text is the spelling of the TypeScript type the field stands for |
| `Typemallow.ResolvedTypeParses` | typemallow/__init__.py:35-55 | when nested names are identifiers, the resolver's text parses back to exactly the field's type, so nested arrays and index signatures are never ambiguous |
| `Typemallow.ResolvedTypeDetermines` | typemallow/__init__.py:35-55 | when all nested names are identifiers, two fields whose resolved texts are equal stand for the same TypeScript type |
| `Typemallow.NestedResolves` | typemallow/__init__.py:36-39 | for every name, a Nested field's text spells its target's name, or an array of it when `many` is set, and equals the bare name exactly when `many` is not set; for an identifier name the text parses back as that type |
| `Typemallow.ListResolves` | typemallow/__init__.py:40-47 | a List of Nested gives `<name>[]` and ignores the element's `many`; a List of List gives `any[][]`; a List of Dict gives `object[]`; any other element gives its table entry plus `[]` |
| `Typemallow.DictResolves` | typemallow/__init__.py:48-51 | for every Dict, the text spells the index signature whose key is the table entry of the key container's class and whose value is the type of the value container; a Nested key gives `any`; when the value's nested names are identifiers the text parses back as that signature |
| `Typemallow.PlainResolves` | typemallow/__init__.py:52-55 | every other field resolves to its table entry, or to `any` when its class is unknown; the result is always one of the seven table names |
| `TsSyntax.ParseRender` | typemallow/__init__.py:38-51 | every type expression built from identifiers, `T[]` and `{[key: K]: V}` reads back from its spelling as exactly itself |
| `Typemallow.InterfaceName` | typemallow/__init__.py:67 | the class name with every `Schema` removed in one pass; stated by `SchemaSuffixDropped` and the `StrUtil.RemoveAll...` lemmas |
| `Typemallow.FieldTsType` | typemallow/__init__.py:69-76 | the type written for a declared field: a top-level Nested field's target with `Schema` removed, plus `[]` when many; otherwise the resolver's type; stated by `FieldTsTypeAgrees` and `NestedAsymmetry` |
| `Typemallow.FieldTsTypeAgrees` | typemallow/__init__.py:69-76 | a declared field is typed exactly as the resolver types it, except exactly when it is a Nested field whose target contains `Schema` (both directions) |
| `Typemallow.FieldLine` | typemallow/__init__.py:77-79 | the line `\t<key>: <type>;`; its place in the interface is stated by `InterfaceLines` |
| `Typemallow.FieldLines` | typemallow/__init__.py:68-79 | one line per declared field, the line of that field, in declaration order (the comprehension itself); the count is stated, and the lines as read back from the text by `InterfaceLines` |
| `Typemallow.InterfaceText` | typemallow/__init__.py:67-81 | the text `__get_ts_interface` returns; `GetTsInterface` computes it and `InterfaceLines` states its line structure |
| `Typemallow.GetTsInterface` | typemallow/__init__.py:58-81 | the loop that collects one line per declared field, and the joining step after it, produce exactly the interface text specified by `InterfaceText` |
| `Typemallow.InterfaceLines` | typemallow/__init__.py:68-81 | split on newlines, the interface is its header, then one `\tkey: type;` line per declared field in declaration order (a single empty line when there are none), then `}` and a blank line |
| `Typemallow.SchemaSuffixDropped` | typemallow/__init__.py:67 | a class named `<base>Schema` gives the interface name `base` when `base` has no `Schema` of its own, and in general the name `base` alone would give |
| `Typemallow.NestedAsymmetry` | typemallow/__init__.py:70-73 | a top-level Nested field to `<base>Schema` is typed `base` (plus `[]` when many), while the same Nested under a List or a Dict value keeps `<base>Schema` |
| `Typemallow.UserExample` | typemallow/__init__.py:58-81 | the lines of the interface for a `<user>Schema` with an integer, a list of strings and a single nested `<profile>Schema` |
| `Typemallow.UserSchemaExample` | typemallow/__init__.py:58-81 | `UserSchema` gives `export interface User {`, `\tid: number;`, `\ttags: string[];`, `\tmanager: Profile;`, `}` and a blank line |
| `Typemallow.AppendToEach` | typemallow/__init__.py:24-27 | the registry after appending the class to each listed label in turn, creating a missing list first; stated by `AppendToEachEntries` and `AppendToEachKeys` |
| `Typemallow.AppendToEachEntries` | typemallow/__init__.py:24-27 | each label's list gains one copy of the class per time the label is listed, at its end; an unlisted label's list is unchanged |
| `Typemallow.AppendToEachKeys` | typemallow/__init__.py:25-26 | the labels of the registry afterwards are those before plus every listed label |
| `Typemallow.Registered` | typemallow/__init__.py:21-31 | the registry after decorating a class: the list case, the single-label case, and no change for a non-Schema class; stated by `RegisteredEntries` |
| `Typemallow.RegisteredEntries` | typemallow/__init__.py:21-31 | decorating a Schema subclass appends it to each label's list once per time that label is given (repeats included) and adds new labels to the registry; other labels keep their lists; decorating a non-Schema class changes nothing |
| `Typemallow.RegisteredUnderLabel` | typemallow/__init__.py:28-31 | under a single label the class is appended exactly once at the end of that label's list, created empty if absent; every other label is untouched |
| `Typemallow.Registry.constructor` | typemallow/__init__.py:4 | a new registry is empty |
| `Typemallow.Registry.TsInterface` | typemallow/__init__.py:21-32 | the decorator returns its argument unchanged and leaves the registry as `Registered` describes |
| `Typemallow.Interfaces` | typemallow/__init__.py:97 | the comprehension: one interface per registered class, that class's `InterfaceText`, in order (the comprehension itself); the count is stated, and the order in the output by `AllInterfacesSnoc` and `AllInterfacesAppend` |
| `Typemallow.AllInterfaces` | typemallow/__init__.py:97-98 | `''.join` of the comprehension; stated by `AllInterfacesSnoc` and `AllInterfacesAppend` |
| `Typemallow.AllInterfacesSnoc` | typemallow/__init__.py:97-98 | one more class at the end of the list adds exactly its interface at the end of the output |
| `Typemallow.AllInterfacesAppend` | typemallow/__init__.py:97-98 | the output for a list of classes is the output for any prefix followed by the output for the rest, so there is one interface per registration, in registration order |
| `Typemallow.Generate` | typemallow/__init__.py:97 | generation fails with the missing-key error exactly when the context was never registered |
| `Typemallow.Registry.GenerateTs` | typemallow/__init__.py:97-98 | the comprehension over the context's classes and the join produce exactly `Generate` of the current registry |
| `Typemallow.GenerateAfterRegister` | typemallow/__init__.py:97-98 | decorating a Schema subclass appends its interface to each given context's output once per time the context is given; every other context's output or error is unchanged |
| `StrUtil.RemoveAll` | typemallow/__init__.py:67 | `str.replace(pat, '')`: one left-to-right pass dropping non-overlapping occurrences; stated by the three lemmas below |
| `StrUtil.RemoveAllIdentity` | typemallow/__init__.py:67 | removing `Schema` leaves a name unchanged exactly when `Schema` does not occur in it |
| `StrUtil.RemoveAllShrinks` | typemallow/__init__.py:67 | removing never lengthens a name, and shortens it exactly when there is an occurrence |
| `StrUtil.RemoveAllAround` | typemallow/__init__.py:67 | for a pattern whose occurrences cannot overlap, removal on text around an occurrence is removal on each side |
| `StrUtil.Join` | typemallow/__init__.py:80 | `sep.join(parts)`, as at `:80` and `:98`; stated by `JoinLength`, `SplitJoin` and `JoinSplit` |
| `StrUtil.JoinLength` | typemallow/__init__.py:80 | the joined text is as long as all parts plus one separator between each two neighbours, and begins with the first part |
| `StrUtil.SplitJoin` | typemallow/__init__.py:80 | splitting the newline-joined field lines gives back the lines, when no line contains a newline |
| `StrUtil.JoinSplit` | typemallow/__init__.py:80 | joining the newline-split pieces of a text gives back the text |

## Left out

- File output in `generate_ts` (`typemallow/__init__.py:96-98`) is left out; only the produced string is modelled. The source opens and truncates the file before looking up the context, so an unknown context still empties the file. That is I/O behaviour outside the model.
- marshmallow introspection is replaced by the closed `Field` datatype and the `isSchema` flag. This covers `issubclass(cls, Schema)`, the exact-type checks `type(value) is ...`, `_declared_fields`, `.container`, `.key_container`, `.value_container`, `.nested` and `__name__`. Whether marshmallow aliases classes such as `Bool` and `Boolean` is library behaviour and not visible here. The model keeps them as two table keys with the same value.
- The attribute errors raised when a top-level Nested target is a class (`.replace` fails, `:71`) or a List or Dict Nested target is a string (`.__name__` fails, `:37`, `:43`) are left out. The model takes the target as a name in both places.
- The module-level dict `__schemas` and the decorator-factory closure are replaced by an explicitly constructed `Registry` object. Its `TsInterface` method takes the context and the class together.
- A context that is neither a string nor a list is not modelled (labels are strings). Neither is a list passed to `generate_ts`, which would raise Python's unhashable-type error.
- Enum extraction and enum declarations are not modelled: they do not appear in the code.
- The default argument `context='default'` of `ts_interface` and `generate_ts` is not modelled: every call in the model names its context.
- `Typemallow.InterfaceLines`: stated for schemas whose class name, field keys and nested names contain no newline. Python identifiers never do, and the exact text for every schema is `InterfaceText`, which `GetTsInterface` meets.
- `Typemallow.ResolvedTypeDetermines`: stated for fields whose nested names are identifiers in the sense of `ResolvedTypeParses` below (Python class names always are). Without that, `Nested("a[]", false)` and `Nested("a", true)` give the same text for different types.
- `Typemallow.ResolvedTypeParses`: stated for fields whose nested names are non-empty and free of `{`, `}`, `[`, `]`, `:` and space. For other names the generated text can be ambiguous TypeScript.
- `Typemallow.UserExample`: stated for names without the letter `S` or a newline, so that `Schema` is removed only from the end of the class name.
