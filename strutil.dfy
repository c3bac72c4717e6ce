/** The two Python string operations the generator relies on, with CPython's
    semantics: `s.replace(pat, '')` and `sep.join(parts)`; and `s.split(sep)`,
    which the generator does not call, to read its output line by line. */
module StrUtil {

  /** `pat` starts at index `i` of `s`. */
  ghost predicate OccursAt(s: string, pat: string, i: int)
  {
    0 <= i && i + |pat| <= |s| && s[i..i + |pat|] == pat
  }

  ghost predicate Occurs(s: string, pat: string)
  {
    exists i :: OccursAt(s, pat, i)
  }

  /** No proper suffix of `pat` is also a prefix of it, so two occurrences of
      `pat` can never overlap ("Schema" is such a pattern). */
  ghost predicate BorderFree(pat: string)
  {
    forall k :: 0 < k < |pat| ==> pat[k..] != pat[..|pat| - k]
  }

  /** `s.replace(pat, '')`: one left-to-right pass that drops every
      non-overlapping occurrence of `pat`; text that only becomes an
      occurrence after a removal is kept, as CPython does. */
  function RemoveAll(s: string, pat: string): (r: string)
    requires |pat| > 0
    decreases |s|
  {
    if |s| < |pat| then s
    else if s[..|pat|] == pat then RemoveAll(s[|pat|..], pat)
    else [s[0]] + RemoveAll(s[1..], pat)
  }

  /** Removal never lengthens the text, and it shortens it exactly when there
      is something to remove. */
  lemma {:induction false} RemoveAllShrinks(s: string, pat: string)
    requires |pat| > 0
    ensures |RemoveAll(s, pat)| <= |s|
    ensures Occurs(s, pat) ==> |RemoveAll(s, pat)| < |s|
    decreases |s|
  {
    if |s| < |pat| {
    } else if s[..|pat|] == pat {
      RemoveAllShrinks(s[|pat|..], pat);
    } else {
      RemoveAllShrinks(s[1..], pat);
      if Occurs(s, pat) {
        var i :| OccursAt(s, pat, i);
        assert i != 0;
        assert s[1..][i - 1..i - 1 + |pat|] == s[i..i + |pat|];
        assert OccursAt(s[1..], pat, i - 1);
      }
    }
  }

  /** Removal leaves the text unchanged exactly when the pattern does not occur in it. */
  lemma {:induction false} RemoveAllIdentity(s: string, pat: string)
    requires |pat| > 0
    ensures RemoveAll(s, pat) == s <==> !Occurs(s, pat)
    decreases |s|
  {
    RemoveAllShrinks(s, pat);
    if |s| >= |pat| {
      if s[..|pat|] == pat {
        assert OccursAt(s, pat, 0);
      } else {
        OccursInTail(s, pat);
        RemoveAllIdentity(s[1..], pat);
        assert [s[0]] + s[1..] == s;
      }
    }
  }

  /** An occurrence in the tail of a text is an occurrence in the text. */
  lemma OccursInTail(s: string, pat: string)
    requires |s| >= 1
    ensures Occurs(s[1..], pat) ==> Occurs(s, pat)
  {
    if Occurs(s[1..], pat) {
      var i :| OccursAt(s[1..], pat, i);
      assert s[1..][i..i + |pat|] == s[i + 1..i + 1 + |pat|];
      assert OccursAt(s, pat, i + 1);
    }
  }

  /** Removal keeps no character that was not already there. */
  lemma {:induction false} RemoveAllChars(s: string, pat: string, c: char)
    requires |pat| > 0
    requires c in RemoveAll(s, pat)
    ensures c in s
    decreases |s|
  {
    if |s| < |pat| {
    } else if s[..|pat|] == pat {
      RemoveAllChars(s[|pat|..], pat, c);
    } else if c != s[0] {
      RemoveAllChars(s[1..], pat, c);
    }
  }

  /** For a pattern whose occurrences cannot overlap, an occurrence splits the
      removal in two: what precedes it and what follows it are treated apart. */
  lemma {:induction false} RemoveAllAround(a: string, pat: string, b: string)
    requires |pat| > 0 && BorderFree(pat)
    ensures RemoveAll(a + pat + b, pat) == RemoveAll(a, pat) + RemoveAll(b, pat)
    decreases |a|
  {
    var s := a + pat + b;
    if |a| == 0 {
      assert s == pat + b;
      assert s[..|pat|] == pat && s[|pat|..] == b;
    } else if |a| >= |pat| {
      assert s[..|pat|] == a[..|pat|];
      if a[..|pat|] == pat {
        assert s[|pat|..] == a[|pat|..] + pat + b;
        RemoveAllAround(a[|pat|..], pat, b);
      } else {
        assert s[0] == a[0] && s[1..] == a[1..] + pat + b;
        RemoveAllAround(a[1..], pat, b);
      }
    } else {
      assert s[0] == a[0] && s[1..] == a[1..] + pat + b;
      PrefixNotPattern(a, pat, b);
      RemoveAllAround(a[1..], pat, b);
      assert [a[0]] + a[1..] == a;
    }
  }

  /** A text shorter than a border-free pattern, followed by the pattern, does
      not begin with the pattern. */
  lemma PrefixNotPattern(a: string, pat: string, b: string)
    requires 0 < |a| < |pat| && BorderFree(pat)
    ensures (a + pat + b)[..|pat|] != pat
  {
    var s := a + pat + b;
    var k := |a|;
    assert s[..|pat|][k..] == pat[..|pat| - k];
    assert pat[k..] != pat[..|pat| - k];
  }

  /** A concatenation splits back at the length of its first part. */
  lemma SplitAt(p: string, q: string)
    ensures (p + q)[..|p|] == p && (p + q)[|p|..] == q
  {
  }

  /** Concatenation regroups freely. */
  lemma ConcatAssoc(a: string, b: string, c: string)
    ensures a + b + c == a + (b + c)
  {
  }

  /** The total length of the parts. */
  function TotalLength(parts: seq<string>): nat
  {
    if |parts| == 0 then 0 else |parts[0]| + TotalLength(parts[1..])
  }

  /** `sep.join(parts)`: every part, with one separator between neighbours. */
  function Join(parts: seq<string>, sep: string): string
  {
    if |parts| == 0 then ""
    else if |parts| == 1 then parts[0]
    else parts[0] + sep + Join(parts[1..], sep)
  }

  /** The joined text holds every part and one separator between each two
      neighbours, and begins with the first part. */
  lemma {:induction false} JoinLength(parts: seq<string>, sep: string)
    ensures |Join(parts, sep)| == TotalLength(parts) + (if |parts| == 0 then 0 else (|parts| - 1) * |sep|)
    ensures |parts| > 0 ==> Join(parts, sep)[..|parts[0]|] == parts[0]
  {
    if |parts| > 1 {
      JoinLength(parts[1..], sep);
      SplitAt(parts[0], sep + Join(parts[1..], sep));
      ConcatAssoc(parts[0], sep, Join(parts[1..], sep));
    }
  }

  /** Joining one more part adds the separator and the part at the end. */
  lemma {:induction false} JoinSnoc(parts: seq<string>, x: string, sep: string)
    ensures Join(parts + [x], sep) == if |parts| == 0 then x else Join(parts, sep) + sep + x
  {
    if |parts| > 1 {
      assert (parts + [x])[1..] == parts[1..] + [x];
      JoinSnoc(parts[1..], x, sep);
    } else if |parts| == 1 {
      assert (parts + [x])[1..] == [x];
    }
  }

  /** `s.split(sep)` for a one-character separator: there is always at least
      one piece, and the empty text splits into one empty piece. */
  function Split(s: string, sep: char): (pieces: seq<string>)
    ensures |pieces| >= 1
    ensures |pieces| <= |s| + 1
  {
    if |s| == 0 then [""]
    else if s[0] == sep then [""] + Split(s[1..], sep)
    else
      var rest := Split(s[1..], sep);
      [[s[0]] + rest[0]] + rest[1..]
  }

  /** Text without the separator is one piece. */
  lemma {:induction false} SplitNoSep(s: string, sep: char)
    requires sep !in s
    ensures Split(s, sep) == [s]
  {
    if |s| > 0 {
      SplitNoSep(s[1..], sep);
      assert [s[0]] + s[1..] == s;
    }
  }

  /** A separator between two texts splits exactly there. */
  lemma {:induction false} SplitAround(a: string, sep: char, b: string)
    ensures Split(a + [sep] + b, sep) == Split(a, sep) + Split(b, sep)
  {
    if |a| == 0 {
      assert a + [sep] + b == [sep] + b;
      SplitCons(sep, b, sep);
    } else {
      var t := a[1..] + [sep] + b;
      assert a + [sep] + b == [a[0]] + t;
      assert a == [a[0]] + a[1..];
      SplitAround(a[1..], sep, b);
      SplitCons(a[0], t, sep);
      SplitCons(a[0], a[1..], sep);
      ConsPieces(a[0], sep, Split(a[1..], sep), Split(b, sep));
    }
  }

  /** `Split` on a text with a known first character. */
  lemma SplitCons(c: char, t: string, sep: char)
    ensures Split([c] + t, sep)
         == if c == sep then [""] + Split(t, sep)
            else [[c] + Split(t, sep)[0]] + Split(t, sep)[1..]
  {
    assert ([c] + t)[0] == c && ([c] + t)[1..] == t;
  }

  /** Adding a first character to pieces, then appending more pieces, is
      appending first. */
  lemma ConsPieces(c: char, sep: char, front: seq<string>, back: seq<string>)
    requires |front| >= 1
    ensures (if c == sep then [""] + (front + back)
             else [[c] + (front + back)[0]] + (front + back)[1..])
         == (if c == sep then [""] + front else [[c] + front[0]] + front[1..]) + back
  {
    if c != sep {
      assert (front + back)[1..] == front[1..] + back;
    }
  }

  /** Joining the pieces with the separator gives back the text. */
  lemma {:induction false} JoinSplit(s: string, sep: char)
    ensures Join(Split(s, sep), [sep]) == s
  {
    if |s| > 0 {
      var rest := Split(s[1..], sep);
      JoinSplit(s[1..], sep);
      if s[0] == sep {
        assert ([""] + rest)[1..] == rest;
      } else {
        var pieces := [[s[0]] + rest[0]] + rest[1..];
        if |rest| > 1 {
          assert pieces[1..] == rest[1..];
        }
      }
      assert [s[0]] + s[1..] == s;
    }
  }

  /** Splitting inverts joining, when no part contains the separator. */
  lemma {:induction false} SplitJoin(parts: seq<string>, sep: char)
    requires |parts| >= 1
    requires forall i :: 0 <= i < |parts| ==> sep !in parts[i]
    ensures Split(Join(parts, [sep]), sep) == parts
  {
    if |parts| == 1 {
      SplitNoSep(parts[0], sep);
    } else {
      SplitJoin(parts[1..], sep);
      SplitNoSep(parts[0], sep);
      SplitAround(parts[0], sep, Join(parts[1..], [sep]));
      assert [parts[0]] + parts[1..] == parts;
    }
  }
}
