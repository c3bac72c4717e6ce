/** The TypeScript type expressions the generator writes: a type name, an
    array `T[]`, and an index signature `{[key: K]: V}`. `Render` is how the
    generator spells them; `Parse` reads such text back, and `ParseRender`
    proves that the spelling is unambiguous. */
module TsSyntax {
  import StrUtil

  datatype Option<T> = None | Some(value: T)

  datatype TsType =
    | Name(id: string)
    | Array(elem: TsType)
    | Index(key: TsType, value: TsType)

  /** The text of a type expression, spelled as the generator spells it. */
  function Render(t: TsType): string
  {
    match t
    case Name(id) => id
    case Array(elem) => Render(elem) + "[]"
    case Index(key, value) => "{[key: " + Render(key) + "]: " + Render(value) + "}"
  }

  /** Characters that belong to the type syntax and so never to a name. */
  predicate Delimiter(c: char)
  {
    c == '{' || c == '}' || c == '[' || c == ']' || c == ':' || c == ' '
  }

  /** A name the parser can read back: non-empty, no delimiter in it. */
  predicate IsIdent(id: string)
  {
    |id| > 0 && forall i :: 0 <= i < |id| ==> !Delimiter(id[i])
  }

  /** Every name inside the type is an identifier. */
  predicate WellNamed(t: TsType)
  {
    match t
    case Name(id) => IsIdent(id)
    case Array(elem) => WellNamed(elem)
    case Index(key, value) => WellNamed(key) && WellNamed(value)
  }

  /** Length of the longest prefix of `s` free of delimiters. */
  function IdentLength(s: string): (n: nat)
    ensures n <= |s|
    ensures forall i :: 0 <= i < n ==> !Delimiter(s[i])
    ensures n < |s| ==> Delimiter(s[n])
  {
    if |s| == 0 || Delimiter(s[0]) then 0 else 1 + IdentLength(s[1..])
  }

  /** Reads one type expression at the front of `s`; returns it with the
      unread remainder, which is always shorter than `s`. */
  function ParseType(s: string): (r: Option<(TsType, string)>)
    ensures r.Some? ==> |r.value.1| < |s|
    decreases |s|, 1
  {
    match ParsePrimary(s)
    case None => None
    case Some((p, rest)) => Some(ParseSuffixes(p, rest))
  }

  /** A name or an index signature, without trailing `[]`. */
  function ParsePrimary(s: string): (r: Option<(TsType, string)>)
    ensures r.Some? ==> |r.value.1| < |s|
    decreases |s|, 0
  {
    if |s| >= 7 && s[..7] == "{[key: " then ParseIndex(s[7..]) else ParseName(s)
  }

  /** The longest delimiter-free prefix, as a name. */
  function ParseName(s: string): (r: Option<(TsType, string)>)
    ensures r.Some? ==> |r.value.1| < |s|
  {
    var n := IdentLength(s);
    if n == 0 then None else Some((Name(s[..n]), s[n..]))
  }

  /** An index signature after its opening `{[key: `: the key type. */
  function ParseIndex(s: string): (r: Option<(TsType, string)>)
    ensures r.Some? ==> |r.value.1| < |s|
    decreases |s|, 2
  {
    match ParseType(s)
    case None => None
    case Some((key, afterKey)) => ParseIndexValue(key, afterKey)
  }

  /** An index signature after its key type: `]: `, the value type, `}`. */
  function ParseIndexValue(key: TsType, s: string): (r: Option<(TsType, string)>)
    ensures r.Some? ==> |r.value.1| < |s|
    decreases |s|, 2
  {
    if |s| >= 3 && s[..3] == "]: " then
      match ParseType(s[3..])
      case None => None
      case Some((value, afterValue)) =>
        if |afterValue| >= 1 && afterValue[0] == '}' then Some((Index(key, value), afterValue[1..]))
        else None
    else None
  }

  /** Wraps `t` in one `Array` per leading `[]` of `s`. */
  function ParseSuffixes(t: TsType, s: string): (r: (TsType, string))
    ensures |r.1| <= |s|
    decreases |s|
  {
    if |s| >= 2 && s[..2] == "[]" then ParseSuffixes(Array(t), s[2..]) else (t, s)
  }

  /** The whole text is exactly one type expression. */
  function Parse(s: string): Option<TsType>
  {
    match ParseType(s)
    case Some((t, rest)) => if rest == "" then Some(t) else None
    case None => None
  }

  /** `n` copies of `[]`. */
  function Brackets(n: nat): string
  {
    if n == 0 then "" else "[]" + Brackets(n - 1)
  }

  /** `t` wrapped in `n` arrays. */
  function Arrays(t: TsType, n: nat): TsType
    decreases n
  {
    if n == 0 then t else Arrays(Array(t), n - 1)
  }

  /** What may follow a type expression without being read as part of it. */
  predicate Follows(rest: string)
  {
    rest == "" || (Delimiter(rest[0]) && !(|rest| >= 2 && rest[..2] == "[]"))
  }

  lemma {:induction false} IdentLengthOf(id: string, rest: string)
    requires IsIdent(id)
    requires rest == "" || Delimiter(rest[0])
    ensures IdentLength(id + rest) == |id|
    decreases |id|
  {
    var s := id + rest;
    assert s[0] == id[0];
    if |id| > 1 {
      assert s[1..] == id[1..] + rest;
      IdentLengthOf(id[1..], rest);
    } else {
      assert s[1..] == rest;
    }
  }

  lemma {:induction false} SuffixesRoundTrip(t: TsType, n: nat, rest: string)
    requires Follows(rest)
    ensures ParseSuffixes(t, Brackets(n) + rest) == (Arrays(t, n), rest)
    decreases n
  {
    var s := Brackets(n) + rest;
    if n == 0 {
      assert s == rest;
    } else {
      assert s[..2] == "[]";
      assert s[2..] == Brackets(n - 1) + rest;
      SuffixesRoundTrip(Array(t), n - 1, rest);
    }
  }

  /** A type expression followed by `n` brackets parses as itself wrapped in `n` arrays. */
  lemma {:induction false} TypeRoundTrip(t: TsType, n: nat, rest: string)
    requires WellNamed(t)
    requires Follows(rest)
    ensures ParseType(Render(t) + Brackets(n) + rest) == Some((Arrays(t, n), rest))
    decreases t, 1
  {
    match t
    case Array(elem) =>
      ArrayText(Render(elem), n, rest);
      TypeRoundTrip(elem, n + 1, rest);
    case _ =>
      var tail := Brackets(n) + rest;
      BracketsThenFollows(n, rest);
      PrimaryRoundTrip(t, tail);
      StrUtil.ConcatAssoc(Render(t), Brackets(n), rest);
      SuffixesRoundTrip(t, n, rest);
  }

  /** The brackets of an array type join those that follow it. */
  lemma ArrayText(elemText: string, n: nat, rest: string)
    ensures elemText + "[]" + Brackets(n) + rest == elemText + Brackets(n + 1) + rest
  {
    assert Brackets(n + 1) == "[]" + Brackets(n);
  }

  lemma BracketsThenFollows(n: nat, rest: string)
    requires Follows(rest)
    ensures Brackets(n) + rest == "" || Delimiter((Brackets(n) + rest)[0])
  {
    if n > 0 {
      assert (Brackets(n) + rest)[0] == '[';
    } else {
      assert Brackets(n) + rest == rest;
    }
  }

  lemma {:induction false} PrimaryRoundTrip(t: TsType, rest: string)
    requires !t.Array? && WellNamed(t)
    requires rest == "" || Delimiter(rest[0])
    ensures ParsePrimary(Render(t) + rest) == Some((t, rest))
    decreases t, 0
  {
    match t
    case Name(id) =>
      NameRoundTrip(id, rest);
    case Index(key, value) =>
      var afterValue := "}" + rest;
      var afterKey := "]: " + (Render(value) + afterValue);
      TypeRoundTrip(key, 0, afterKey);
      NoBrackets(Render(key), afterKey);
      TypeRoundTrip(value, 0, afterValue);
      NoBrackets(Render(value), afterValue);
      IndexRoundTrip(key, value, Render(key), Render(value), rest);
      RegroupIndex("{[key: ", Render(key), "]: ", Render(value), "}", rest);
  }

  lemma NameRoundTrip(id: string, rest: string)
    requires IsIdent(id)
    requires rest == "" || Delimiter(rest[0])
    ensures ParsePrimary(Render(Name(id)) + rest) == Some((Name(id), rest))
  {
    var s := id + rest;
    assert s[0] == id[0];
    IdentLengthOf(id, rest);
    StrUtil.SplitAt(id, rest);
  }

  lemma NoBrackets(text: string, rest: string)
    ensures text + Brackets(0) + rest == text + rest
  {
    assert Brackets(0) == "";
  }

  /** The index-signature step of `PrimaryRoundTrip`, given the round trips of
      its key text and its value text. */
  lemma IndexRoundTrip(key: TsType, value: TsType, keyText: string, valueText: string, rest: string)
    requires ParseType(keyText + ("]: " + (valueText + ("}" + rest))))
          == Some((key, "]: " + (valueText + ("}" + rest))))
    requires ParseType(valueText + ("}" + rest)) == Some((value, "}" + rest))
    ensures ParsePrimary("{[key: " + (keyText + ("]: " + (valueText + ("}" + rest)))))
         == Some((Index(key, value), rest))
  {
    var afterValue := "}" + rest;
    var afterKey := "]: " + (valueText + afterValue);
    var s := "{[key: " + (keyText + afterKey);
    StrUtil.SplitAt("{[key: ", keyText + afterKey);
    StrUtil.SplitAt("]: ", valueText + afterValue);
    StrUtil.SplitAt("}", rest);
    assert ParseIndexValue(key, afterKey) == Some((Index(key, value), rest));
    assert ParseIndex(s[7..]) == Some((Index(key, value), rest));
  }

  lemma RegroupIndex(open: string, k: string, colon: string, v: string, close: string, rest: string)
    ensures open + k + colon + v + close + rest == open + (k + (colon + (v + (close + rest))))
  {
  }

  /** Reading back the text of a well-named type gives that type. */
  lemma {:induction false} ParseRender(t: TsType)
    requires WellNamed(t)
    ensures Parse(Render(t)) == Some(t)
  {
    TypeRoundTrip(t, 0, "");
    assert Render(t) + Brackets(0) + "" == Render(t);
  }

  /** Two well-named types with the same text are the same type. */
  lemma {:induction false} RenderInjective(t: TsType, u: TsType)
    requires WellNamed(t) && WellNamed(u)
    requires Render(t) == Render(u)
    ensures t == u
  {
    ParseRender(t);
    ParseRender(u);
  }
}
