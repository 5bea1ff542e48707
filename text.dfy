/** .NET string helpers used by the modelled code: null tests, Trim, ordinal
    Replace, string.Join and the binary (code point) order SQLite uses for TEXT. */
module Text {

  /** A C# `string` reference, which may be null. */
  datatype NullableString = Null | Str(value: string)

  /** `x ?? fallback`. */
  function Coalesce(x: NullableString, fallback: string): (r: string)
    ensures x.Str? ==> r == x.value
    ensures x.Null? ==> r == fallback
  {
    if x.Null? then fallback else x.value
  }

  /** Char.IsWhiteSpace: the Unicode separators (Zs, Zl, Zp) plus U+0009..U+000D, U+0085 and U+00A0. */
  predicate IsWhiteSpace(c: char) {
    var n := c as int;
    (0x09 <= n <= 0x0D) || n == 0x20 || n == 0x85 || n == 0xA0 || n == 0x1680
    || (0x2000 <= n <= 0x200A) || n == 0x2028 || n == 0x2029 || n == 0x202F
    || n == 0x205F || n == 0x3000
  }

  predicate AllWhiteSpace(s: string) {
    forall i :: 0 <= i < |s| ==> IsWhiteSpace(s[i])
  }

  /** string.IsNullOrEmpty */
  predicate IsNullOrEmpty(x: NullableString) {
    x.Null? || x.value == []
  }

  /** string.IsNullOrWhiteSpace */
  predicate IsNullOrWhiteSpace(x: NullableString) {
    x.Null? || AllWhiteSpace(x.value)
  }

  predicate StartsWith(s: string, prefix: string) {
    |prefix| <= |s| && s[..|prefix|] == prefix
  }

  /** String.TrimStart(): drops the longest all-white-space prefix. */
  function TrimStart(s: string): (r: string)
    ensures |r| <= |s|
    ensures r == [] || !IsWhiteSpace(r[0])
  {
    if s != [] && IsWhiteSpace(s[0]) then TrimStart(s[1..]) else s
  }

  /** String.TrimEnd(): drops the longest all-white-space suffix. */
  function TrimEnd(s: string): (r: string)
    ensures |r| <= |s|
    ensures r == [] || !IsWhiteSpace(r[|r| - 1])
  {
    if s != [] && IsWhiteSpace(s[|s| - 1]) then TrimEnd(s[..|s| - 1]) else s
  }

  /** String.Trim() */
  function Trim(s: string): (r: string)
    ensures |r| <= |s|
  {
    TrimEnd(TrimStart(s))
  }

  /** TrimStart leaves a suffix of its input, and everything it drops is
      white space. */
  lemma {:induction false} TrimStartSpec(s: string)
    ensures TrimStart(s) == s[|s| - |TrimStart(s)|..]
    ensures AllWhiteSpace(s[..|s| - |TrimStart(s)|])
  {
    if s != [] && IsWhiteSpace(s[0]) {
      TrimStartSpec(s[1..]);
      WhiteSpacePrefixGrows(s, |s| - 1 - |TrimStart(s)|);
    }
  }

  lemma WhiteSpacePrefixGrows(s: string, k: nat)
    requires s != [] && IsWhiteSpace(s[0]) && k < |s| && AllWhiteSpace(s[1..][..k])
    ensures AllWhiteSpace(s[..k + 1]) && s[1..][k..] == s[k + 1..]
  {
    forall i | 0 < i <= k
      ensures IsWhiteSpace(s[i])
    {
      assert s[i] == s[1..][..k][i - 1];
    }
  }

  /** TrimEnd leaves a prefix of its input, and everything it drops is
      white space. */
  lemma {:induction false} TrimEndSpec(s: string)
    ensures TrimEnd(s) == s[..|TrimEnd(s)|]
    ensures AllWhiteSpace(s[|TrimEnd(s)|..])
  {
    if s != [] && IsWhiteSpace(s[|s| - 1]) {
      TrimEndSpec(s[..|s| - 1]);
      WhiteSpaceSuffixGrows(s, |TrimEnd(s)|);
    }
  }

  lemma WhiteSpaceSuffixGrows(s: string, k: nat)
    requires s != [] && IsWhiteSpace(s[|s| - 1]) && k < |s| && AllWhiteSpace(s[..|s| - 1][k..])
    ensures AllWhiteSpace(s[k..]) && s[..|s| - 1][..k] == s[..k]
  {
    forall i | k <= i < |s| - 1
      ensures IsWhiteSpace(s[i])
    {
      assert s[i] == s[..|s| - 1][k..][i - k];
    }
  }

  /** Neither end of a trimmed string is white space. */
  lemma TrimEnds(s: string)
    ensures var r := Trim(s); r == [] || (!IsWhiteSpace(r[0]) && !IsWhiteSpace(r[|r| - 1]))
  {
    var t := TrimStart(s);
    TrimEndSpec(t);
    var r := TrimEnd(t);
    if r != [] {
      assert r[0] == t[0];
    }
  }

  /** Trim cuts from both ends and nothing else: its result is the slice
      s[i..i + |r|] of the input, where i is the length TrimStart drops. */
  lemma TrimIsSlice(s: string)
    ensures var r, i := Trim(s), |s| - |TrimStart(s)|;
            0 <= i && i + |r| <= |s| && r == s[i..i + |r|]
  {
    var t := TrimStart(s);
    TrimStartSpec(s);
    TrimEndSpec(t);
    SliceOfSlice(s, t, TrimEnd(t));
  }

  /** Only white space lies after the slice that Trim keeps; what lies before
      it is what TrimStart drops, white space by TrimStartSpec. */
  lemma TrimCutsWhiteSpace(s: string)
    ensures var r, i := Trim(s), |s| - |TrimStart(s)|;
            0 <= i && i + |r| <= |s| && AllWhiteSpace(s[i + |r|..])
  {
    var t := TrimStart(s);
    TrimStartIsSuffix(s);
    TrimEndDropsWhiteSpace(t);
    WhiteSpaceAfterSlice(s, t, TrimEnd(t));
  }

  lemma {:induction false} TrimStartIsSuffix(s: string)
    ensures TrimStart(s) == s[|s| - |TrimStart(s)|..]
  {
    if s != [] && IsWhiteSpace(s[0]) {
      TrimStartIsSuffix(s[1..]);
    }
  }

  lemma TrimEndDropsWhiteSpace(s: string)
    ensures AllWhiteSpace(s[|TrimEnd(s)|..])
  {
    TrimEndSpec(s);
  }

  lemma SliceOfSlice(s: string, t: string, u: string)
    requires |t| <= |s| && t == s[|s| - |t|..]
    requires |u| <= |t| && u == t[..|u|]
    ensures var i := |s| - |t|; i + |u| <= |s| && u == s[i..i + |u|]
  {
  }

  lemma WhiteSpaceAfterSlice(s: string, t: string, u: string)
    requires |t| <= |s| && t == s[|s| - |t|..]
    requires |u| <= |t| && AllWhiteSpace(t[|u|..])
    ensures AllWhiteSpace(s[|s| - |t| + |u|..])
  {
    assert t[|u|..] == s[|s| - |t| + |u|..];
  }

  /** Text that neither starts nor ends with white space is left as it is. */
  lemma TrimKeepsTrimmed(s: string)
    requires s == [] || (!IsWhiteSpace(s[0]) && !IsWhiteSpace(s[|s| - 1]))
    ensures Trim(s) == s
  {
  }

  /** String.Replace(pattern, replacement) with ordinal comparison: the
      occurrences of `pattern`, found left to right without overlapping, are
      each replaced.  .NET rejects an empty pattern. */
  function Replace(s: string, pattern: string, replacement: string): (r: string)
    requires pattern != []
    ensures pattern[0] !in s ==> r == s
    decreases |s|
  {
    if s == [] then []
    else if StartsWith(s, pattern) then replacement + Replace(s[|pattern|..], pattern, replacement)
    else [s[0]] + Replace(s[1..], pattern, replacement)
  }

  /** An occurrence of the pattern at the front is replaced. */
  lemma ReplaceMatch(pattern: string, s: string, replacement: string)
    requires pattern != []
    ensures Replace(pattern + s, pattern, replacement) == replacement + Replace(s, pattern, replacement)
  {
    assert (pattern + s)[|pattern|..] == s;
  }

  /** A character where no occurrence starts is copied. */
  lemma ReplaceKeep(c: char, s: string, pattern: string, replacement: string)
    requires pattern != [] && !StartsWith([c] + s, pattern)
    ensures Replace([c] + s, pattern, replacement) == [c] + Replace(s, pattern, replacement)
  {
    assert ([c] + s)[1..] == s;
  }

  /** Text none of whose characters opens the pattern is copied in front. */
  lemma {:induction false} ReplaceKeepAll(u: string, s: string, pattern: string, replacement: string)
    requires pattern != [] && forall i | 0 <= i < |u| :: u[i] != pattern[0]
    ensures Replace(u + s, pattern, replacement) == u + Replace(s, pattern, replacement)
  {
    if u != [] {
      var c, v, tail := u[0], u[1..], Replace(s, pattern, replacement);
      ReplaceKeepAll(v, s, pattern, replacement);
      NotStartsWith([c] + (v + s), pattern);
      ReplaceKeep(c, v + s, pattern, replacement);
      Regroup(c, v, s);
      Regroup(c, v, tail);
      assert u == [c] + v;
    } else {
      assert u + s == s;
    }
  }

  lemma NotStartsWith(t: string, pattern: string)
    requires t != [] && pattern != [] && t[0] != pattern[0]
    ensures !StartsWith(t, pattern)
  {
    if |pattern| <= |t| {
      assert t[..|pattern|][0] == t[0];
    }
  }

  lemma Mismatch(t: string, pattern: string, k: nat)
    requires k < |t| && k < |pattern| && t[k] != pattern[k]
    ensures !StartsWith(t, pattern)
  {
    if |pattern| <= |t| {
      assert t[..|pattern|][k] == t[k];
    }
  }

  lemma Regroup(c: char, v: string, s: string)
    ensures [c] + (v + s) == ([c] + v) + s
  {
  }

  /** No index of `t` starts an occurrence of `pattern`. */
  predicate NoOccurrence(t: string, pattern: string) {
    forall i | 0 <= i <= |t| :: !StartsWith(t[i..], pattern)
  }

  /** When the replacement is not empty and shares no character with the
      pattern, a prefix spelt with pattern characters only is in the output
      because it was in the input. */
  lemma {:induction false} ReplacePrefixFromInput(t: string, w: string, pattern: string, replacement: string)
    requires pattern != [] && replacement != []
    requires forall i | 0 <= i < |replacement| :: replacement[i] !in pattern
    requires forall i | 0 <= i < |w| :: w[i] in pattern
    requires StartsWith(Replace(t, pattern, replacement), w)
    ensures StartsWith(t, w)
    decreases |t|
  {
    if t != [] && w != [] {
      var r := Replace(t, pattern, replacement);
      assert r[0] == w[0];
      if StartsWith(t, pattern) {
        assert false;
      } else {
        var rest := Replace(t[1..], pattern, replacement);
        assert r == [t[0]] + rest;
        assert StartsWith(rest, w[1..]) by { assert rest[..|w| - 1] == r[1..|w|]; }
        ReplacePrefixFromInput(t[1..], w[1..], pattern, replacement);
      }
    }
  }

  /** Occurrences of neither `x`'s tail positions nor `t` make none in `x + t`. */
  lemma NoOccurrenceConcat(x: string, t: string, pattern: string)
    requires forall i | 0 <= i < |x| :: !StartsWith(x[i..] + t, pattern)
    requires NoOccurrence(t, pattern)
    ensures NoOccurrence(x + t, pattern)
  {
    forall i | 0 <= i <= |x + t|
      ensures !StartsWith((x + t)[i..], pattern)
    {
      if i < |x| {
        assert (x + t)[i..] == x[i..] + t;
      } else {
        assert (x + t)[i..] == t[i - |x|..];
      }
    }
  }

  /** With a non-empty replacement that shares no character with the
      pattern, no occurrence of the pattern is left.  (An empty replacement
      can join the text around an occurrence into a new one.) */
  lemma {:induction false} ReplaceLeavesNone(s: string, pattern: string, replacement: string)
    requires pattern != [] && replacement != []
    requires forall i | 0 <= i < |replacement| :: replacement[i] !in pattern
    ensures NoOccurrence(Replace(s, pattern, replacement), pattern)
    decreases |s|
  {
    if s != [] {
      if StartsWith(s, pattern) {
        var rest := Replace(s[|pattern|..], pattern, replacement);
        ReplaceLeavesNone(s[|pattern|..], pattern, replacement);
        forall i | 0 <= i < |replacement|
          ensures !StartsWith(replacement[i..] + rest, pattern)
        {
          assert (replacement[i..] + rest)[0] == replacement[i];
        }
        NoOccurrenceConcat(replacement, rest, pattern);
      } else {
        var rest := Replace(s[1..], pattern, replacement);
        ReplaceLeavesNone(s[1..], pattern, replacement);
        assert Replace(s, pattern, replacement) == [s[0]] + rest;
        forall i | 0 <= i < 1
          ensures !StartsWith([s[0]][i..] + rest, pattern)
        {
          assert [s[0]][i..] + rest == Replace(s, pattern, replacement);
          forall k | 0 <= k < |pattern|
            ensures pattern[k] in pattern
          {
          }
          if StartsWith(Replace(s, pattern, replacement), pattern) {
            ReplacePrefixFromInput(s, pattern, pattern, replacement);
          }
        }
        NoOccurrenceConcat([s[0]], rest, pattern);
      }
    }
  }

  /** The empty replacement can make a new occurrence: deleting `<p>` from
      `<<p>p>` leaves `<p>`. */
  lemma EmptyReplacementCanJoin()
    ensures Replace("<<p>p>", "<p>", "") == "<p>"
  {
    ReplaceMatch("<p>", "p>", "");
    ReplaceKeepAll("p>", [], "<p>", "");
    assert "<p>" + "p>" == "<p>p>" && "p>" + [] == "p>";
    assert ['<'] + "<p>p>" == "<<p>p>" && "<<p>p>"[1] != "<p>"[1];
    ReplaceKeep('<', "<p>p>", "<p>", "");
  }

  /** string.Join(separator, parts). */
  function Join(separator: string, parts: seq<string>): (r: string)
    ensures parts == [] ==> r == []
    ensures |parts| == 1 ==> r == parts[0]
  {
    if parts == [] then []
    else if |parts| == 1 then parts[0]
    else parts[0] + separator + Join(separator, parts[1..])
  }

  /** Lexicographic order on code points.  Comparing the UTF-8 bytes of two
      strings (SQLite's BINARY collation) gives the same order. */
  predicate LexLess(a: string, b: string) {
    if a == [] then b != []
    else if b == [] then false
    else a[0] < b[0] || (a[0] == b[0] && LexLess(a[1..], b[1..]))
  }

  lemma {:induction false} LexLessIrreflexive(a: string)
    ensures !LexLess(a, a)
  {
    if a != [] { LexLessIrreflexive(a[1..]); }
  }

  lemma {:induction false} LexLessTransitive(a: string, b: string, c: string)
    requires LexLess(a, b) && LexLess(b, c)
    ensures LexLess(a, c)
  {
    if a != [] && b != [] && c != [] && a[0] == b[0] == c[0] {
      LexLessTransitive(a[1..], b[1..], c[1..]);
    }
  }

  /** Any two strings are equal or ordered one way. */
  lemma {:induction false} LexLessTotal(a: string, b: string)
    ensures a == b || LexLess(a, b) || LexLess(b, a)
  {
    if a != [] && b != [] && a[0] == b[0] {
      LexLessTotal(a[1..], b[1..]);
      if a[1..] == b[1..] {
        assert a == [a[0]] + a[1..] && b == [b[0]] + b[1..];
      }
    }
  }

  /** Comparing two concatenations whose first parts have the same length
      compares the first parts, and the second parts when the first are equal. */
  lemma {:induction false} LexLessConcat(a1: string, a2: string, b1: string, b2: string)
    requires |a1| == |b1|
    ensures LexLess(a1 + a2, b1 + b2) <==> LexLess(a1, b1) || (a1 == b1 && LexLess(a2, b2))
  {
    if a1 == [] {
      assert a1 + a2 == a2 && b1 + b2 == b2;
    } else {
      assert (a1 + a2)[0] == a1[0] && (b1 + b2)[0] == b1[0];
      assert (a1 + a2)[1..] == a1[1..] + a2 && (b1 + b2)[1..] == b1[1..] + b2;
      LexLessConcat(a1[1..], a2, b1[1..], b2);
      if a1[0] == b1[0] && a1[1..] == b1[1..] {
        assert a1 == [a1[0]] + a1[1..] && b1 == [b1[0]] + b1[1..];
      }
    }
  }
}
