/**
  The Kotlin string primitives the core relies on: `Char.isWhitespace`,
  `CharSequence.isBlank`, `String.trim`, `String.split(",")`,
  `joinToString(separator)` and `String.equals(other, ignoreCase = true)`.
  Strings are `seq<char>` of Unicode scalar values.
 */
module KText {

  /** The Unicode space separators, general category Zs. */
  const SpaceSeparators: set<char> := {
    ' ', '\U{00A0}', '\U{1680}',
    '\U{2000}', '\U{2001}', '\U{2002}', '\U{2003}', '\U{2004}', '\U{2005}',
    '\U{2006}', '\U{2007}', '\U{2008}', '\U{2009}', '\U{200A}',
    '\U{202F}', '\U{205F}', '\U{3000}'}

  /** Java's `Character.isSpaceChar`: a space, line or paragraph separator. */
  predicate IsSpaceChar(c: char) {
    c in SpaceSeparators || c == '\U{2028}' || c == '\U{2029}'
  }

  /** Java's `Character.isWhitespace`: a separator other than the three no-break
      spaces, or one of the controls U+0009..U+000D and U+001C..U+001F. */
  predicate IsJavaWhitespace(c: char) {
    || (IsSpaceChar(c) && c != '\U{00A0}' && c != '\U{2007}' && c != '\U{202F}')
    || ('\t' <= c <= '\r')
    || ('\U{001C}' <= c <= '\U{001F}')
  }

  /** Kotlin's `Char.isWhitespace`, written out as the code points it accepts; it is
      `Character.isWhitespace(c) || Character.isSpaceChar(c)`. */
  predicate IsWhitespace(c: char) {
    || ('\t' <= c <= '\r')                 // U+0009 .. U+000D
    || ('\U{001C}' <= c <= '\U{001F}')     // file, group, record and unit separators
    || c == ' '
    || c == '\U{00A0}'
    || c == '\U{1680}'
    || ('\U{2000}' <= c <= '\U{200A}')
    || c == '\U{2028}' || c == '\U{2029}'
    || c == '\U{202F}' || c == '\U{205F}' || c == '\U{3000}'
  }

  /** The code points listed in `IsWhitespace` are exactly Java's whitespace
      together with its space characters. */
  lemma WhitespaceIsJavaOrSpace(c: char)
    ensures IsWhitespace(c) <==> IsJavaWhitespace(c) || IsSpaceChar(c)
  {
  }

  /** Kotlin's `isBlank`: empty or whitespace only. */
  predicate IsBlank(s: string) {
    forall i :: 0 <= i < |s| ==> IsWhitespace(s[i])
  }

  /** `r` sits at offset `i` of `s`, everything around it is whitespace,
      and `r` neither starts nor ends with whitespace. */
  predicate TrimmedAt(s: string, r: string, i: nat) {
    && i + |r| <= |s|
    && s[i..i + |r|] == r
    && IsBlank(s[..i])
    && IsBlank(s[i + |r|..])
    && (|r| > 0 ==> !IsWhitespace(r[0]) && !IsWhitespace(r[|r| - 1]))
  }

  /** What trimming means, independently of how it is computed. */
  ghost predicate TrimmedFrom(s: string, r: string) {
    exists i: nat :: TrimmedAt(s, r, i)
  }

  /** Number of leading whitespace characters. */
  function LeadingBlank(s: string): (n: nat)
    ensures n <= |s|
    ensures IsBlank(s[..n])
    ensures n < |s| ==> !IsWhitespace(s[n])
  {
    if |s| == 0 || !IsWhitespace(s[0]) then 0
    else
      var n := 1 + LeadingBlank(s[1..]);
      assert s[..n] == [s[0]] + s[1..][..n - 1];
      n
  }

  /** Number of trailing whitespace characters. */
  function TrailingBlank(s: string): (n: nat)
    ensures n <= |s|
    ensures IsBlank(s[|s| - n..])
    ensures n < |s| ==> !IsWhitespace(s[|s| - n - 1])
  {
    if |s| == 0 || !IsWhitespace(s[|s| - 1]) then 0
    else
      var n := 1 + TrailingBlank(s[..|s| - 1]);
      assert IsBlank(s[|s| - n..]) by {
        var t, u := s[..|s| - 1], s[|s| - n..];
        var v := t[|t| - (n - 1)..];
        assert IsBlank(v);
        forall i | 0 <= i < |u| ensures IsWhitespace(u[i]) {
          if i < n - 1 {
            assert u[i] == v[i];
          }
        }
      }
      n
  }

  /** Kotlin's `String.trim()`: drops leading and trailing whitespace. */
  function Trim(s: string): (r: string)
    ensures TrimmedFrom(s, r)
    ensures |r| <= |s|
  {
    var a := LeadingBlank(s);
    var t := s[a..];
    var r := t[..|t| - TrailingBlank(t)];
    TrimWitness(s, a, t, TrailingBlank(t));
    r
  }

  /** Dropping the leading blanks and then the trailing blanks of the rest leaves a
      trimmed form of `s` at the offset of the first non-blank character. */
  lemma TrimWitness(s: string, a: nat, t: string, b: nat)
    requires a <= |s| && IsBlank(s[..a]) && (a < |s| ==> !IsWhitespace(s[a]))
    requires t == s[a..]
    requires b <= |t| && IsBlank(t[|t| - b..]) && (b < |t| ==> !IsWhitespace(t[|t| - b - 1]))
    ensures TrimmedAt(s, t[..|t| - b], a)
  {
    var r := t[..|t| - b];
    assert s[a..a + |r|] == r;
    assert s[a + |r|..] == t[|t| - b..];
    if |r| > 0 {
      assert r[0] == s[a];
      assert r[|r| - 1] == t[|t| - b - 1];
    }
  }

  /** Trimming has exactly one possible outcome, so `Trim` is THE trim of `s`. */
  lemma TrimmedFromUnique(s: string, r1: string, r2: string)
    requires TrimmedFrom(s, r1) && TrimmedFrom(s, r2)
    ensures r1 == r2
  {
    var i1: nat :| TrimmedAt(s, r1, i1);
    var i2: nat :| TrimmedAt(s, r2, i2);
    if |r1| == 0 || |r2| == 0 {
      // One of them is empty, so all of `s` is whitespace and the other is empty too.
      if |r1| == 0 {
        AllBlankSplit(s, i1);
        NonBlankHasNoEnds(s, r2, i2);
      } else {
        AllBlankSplit(s, i2);
        NonBlankHasNoEnds(s, r1, i1);
      }
    } else {
      // Both start at the first non-whitespace character and end after the last one.
      TrimStart(s, r1, i1);
      TrimStart(s, r2, i2);
      TrimEnd(s, r1, i1);
      TrimEnd(s, r2, i2);
    }
  }

  /** A non-empty trim starts at the first non-whitespace character. */
  lemma TrimStart(s: string, r: string, i: nat)
    requires TrimmedAt(s, r, i) && |r| > 0
    ensures i == LeadingBlank(s)
  {
    assert s[i] == r[0];
    LeadingBlankAt(s, i);
  }

  /** A non-empty trim ends after the last non-whitespace character. */
  lemma TrimEnd(s: string, r: string, i: nat)
    requires TrimmedAt(s, r, i) && |r| > 0
    ensures i + |r| == |s| - TrailingBlank(s)
  {
    assert s[i + |r| - 1] == r[|r| - 1];
    TrailingBlankAt(s, i + |r|);
  }

  /** Whitespace up to `i` and none at `i` means `i` leading whitespace characters. */
  lemma {:induction false} LeadingBlankAt(s: string, i: nat)
    requires i < |s| && IsBlank(s[..i]) && !IsWhitespace(s[i])
    ensures LeadingBlank(s) == i
    decreases i
  {
    if i > 0 {
      assert s[..i][0] == s[0];
      assert s[1..][..i - 1] == s[..i][1..];
      LeadingBlankAt(s[1..], i - 1);
    }
  }

  /** Whitespace from `e` on and none just before `e` means `|s| - e` trailing
      whitespace characters. */
  lemma {:induction false} TrailingBlankAt(s: string, e: nat)
    requires 0 < e <= |s| && IsBlank(s[e..]) && !IsWhitespace(s[e - 1])
    ensures TrailingBlank(s) == |s| - e
    decreases |s| - e
  {
    if e < |s| {
      assert s[e..][|s| - 1 - e] == s[|s| - 1];
      assert s[..|s| - 1][e..] == s[e..][..|s| - 1 - e];
      TrailingBlankAt(s[..|s| - 1], e);
    }
  }

  /** An empty trim at `i` means the whole string is blank. */
  lemma AllBlankSplit(s: string, i: nat)
    requires TrimmedAt(s, [], i)
    ensures IsBlank(s)
  {
    forall k | 0 <= k < |s| ensures IsWhitespace(s[k]) {
      if k < i { assert s[..i][k] == s[k]; } else { assert s[i..][k - i] == s[k]; }
    }
  }

  /** A blank string has only the empty trim. */
  lemma NonBlankHasNoEnds(s: string, r: string, i: nat)
    requires IsBlank(s) && TrimmedAt(s, r, i)
    ensures |r| == 0
  {
  }

  /** `isBlank` holds exactly when trimming leaves nothing. */
  lemma BlankIffTrimEmpty(s: string)
    ensures IsBlank(s) <==> Trim(s) == []
  {
    var r := Trim(s);
    var i: nat :| TrimmedAt(s, r, i);
    if IsBlank(s) {
      NonBlankHasNoEnds(s, r, i);
    }
    if r == [] {
      AllBlankSplit(s, i);
    }
  }

  /** A string that neither starts nor ends with whitespace is its own trim;
      in particular trimming twice is trimming once. */
  lemma TrimOfTrimmed(s: string)
    requires |s| > 0 ==> !IsWhitespace(s[0]) && !IsWhitespace(s[|s| - 1])
    ensures Trim(s) == s
  {
    assert s[0..|s|] == s;
    assert TrimmedAt(s, s, 0);
    TrimmedFromUnique(s, Trim(s), s);
  }

  /** Number of occurrences of `c` in `s`. */
  function Count(s: string, c: char): nat {
    if |s| == 0 then 0
    else (if s[0] == c then 1 else 0) + Count(s[1..], c)
  }

  /** Total length of the parts. */
  function TotalLength(parts: seq<string>): nat {
    if |parts| == 0 then 0 else |parts[0]| + TotalLength(parts[1..])
  }

  /** Kotlin's `joinToString(sep)`: the parts with `sep` between neighbours; "" for no parts. */
  function Join(parts: seq<string>, sep: string): string {
    if |parts| == 0 then ""
    else if |parts| == 1 then parts[0]
    else
      parts[0] + sep + Join(parts[1..], sep)
  }

  /** A join starts with the first part and holds every part and one separator
      per pair of neighbours. */
  lemma {:induction false} JoinShape(parts: seq<string>, sep: string)
    requires |parts| > 0
    ensures |Join(parts, sep)| == TotalLength(parts) + (|parts| - 1) * |sep|
    ensures Join(parts, sep)[..|parts[0]|] == parts[0]
    decreases |parts|
  {
    if |parts| > 1 {
      JoinShape(parts[1..], sep);
      var r := parts[0] + sep + Join(parts[1..], sep);
      assert r[..|parts[0]|] == parts[0];
    }
  }

  /** Kotlin's `split(sep)` with a one-character delimiter and no limit:
      every occurrence cuts, empty pieces (leading, inner and trailing) are kept. */
  function Split(s: string, sep: char): (r: seq<string>)
    ensures |r| == Count(s, sep) + 1
    ensures forall k :: 0 <= k < |r| ==> sep !in r[k]
    ensures Join(r, [sep]) == s
  {
    if |s| == 0 then [""]
    else
      var rest := Split(s[1..], sep);
      assert s == [s[0]] + s[1..];
      if s[0] == sep then
        JoinEmptyFirst(rest, [sep]);
        [""] + rest
      else
        var r := [[s[0]] + rest[0]] + rest[1..];
        assert forall k :: 1 <= k < |r| ==> r[k] == rest[k];
        JoinExtendFirst(s[0], rest, [sep]);
        r
  }

  /** An empty first part contributes only its separator. */
  lemma JoinEmptyFirst(parts: seq<string>, sep: string)
    requires |parts| >= 1
    ensures Join([""] + parts, sep) == sep + Join(parts, sep)
  {
    assert ([""] + parts)[1..] == parts;
  }

  /** Growing the first part by a character at the front grows the join the same way. */
  lemma JoinExtendFirst(c: char, parts: seq<string>, sep: string)
    requires |parts| >= 1
    ensures Join([[c] + parts[0]] + parts[1..], sep) == [c] + Join(parts, sep)
  {
    var x := [[c] + parts[0]] + parts[1..];
    if |parts| > 1 {
      assert x[1..] == parts[1..];
      calc {
        Join(x, sep);
      ==
        ([c] + parts[0]) + sep + Join(parts[1..], sep);
      ==
        [c] + (parts[0] + sep + Join(parts[1..], sep));
      ==
        [c] + Join(parts, sep);
      }
    }
  }

  /** `Split` undoes `Join` when no part contains the separator. */
  lemma {:induction false} SplitJoin(parts: seq<string>, sep: char)
    requires |parts| >= 1
    requires forall k :: 0 <= k < |parts| ==> sep !in parts[k]
    ensures Split(Join(parts, [sep]), sep) == parts
  {
    if |parts| == 1 {
      SplitNoSep(parts[0], sep);
    } else {
      SplitJoin(parts[1..], sep);
      SplitPrefix(parts[0], Join(parts[1..], [sep]), sep);
      assert parts == [parts[0]] + parts[1..];
    }
  }

  /** A string without the separator splits into itself alone. */
  lemma {:induction false} SplitNoSep(s: string, sep: char)
    requires sep !in s
    ensures Split(s, sep) == [s]
  {
    if |s| > 0 {
      SplitNoSep(s[1..], sep);
      assert s == [s[0]] + s[1..];
    }
  }

  /** Splitting `a + sep + b` where `a` has no separator cuts right after `a`. */
  lemma {:induction false} SplitPrefix(a: string, b: string, sep: char)
    requires sep !in a
    ensures Split(a + [sep] + b, sep) == [a] + Split(b, sep)
  {
    if |a| == 0 {
      assert a + [sep] + b == [sep] + b;
      assert ([sep] + b)[1..] == b;
    } else {
      SplitPrefix(a[1..], b, sep);
      assert (a + [sep] + b)[1..] == a[1..] + [sep] + b;
      assert a == [a[0]] + a[1..];
    }
  }

  /** ASCII upper-casing of one character; every other character is unchanged. */
  function UpperAscii(c: char): char {
    if 'a' <= c <= 'z' then (c as int - 32) as char else c
  }

  /** ASCII lower-casing of one character; every other character is unchanged. */
  function LowerAscii(c: char): char {
    if 'A' <= c <= 'Z' then (c as int + 32) as char else c
  }

  /** The per-character test of `String.equals(other, ignoreCase = true)`:
      equal, or equal after upper-casing, or equal after upper- then lower-casing. */
  predicate CharEqualsIgnoreCase(a: char, b: char) {
    a == b || UpperAscii(a) == UpperAscii(b) || LowerAscii(UpperAscii(a)) == LowerAscii(UpperAscii(b))
  }

  /** `String.equals(other, ignoreCase = true)` with ASCII case folding. */
  predicate EqualsIgnoreCase(a: string, b: string) {
    |a| == |b| && forall i :: 0 <= i < |a| ==> CharEqualsIgnoreCase(a[i], b[i])
  }

  /** Upper-cases every ASCII letter of a string. */
  function Upper(s: string): (r: string)
    ensures |r| == |s|
    ensures forall i :: 0 <= i < |s| ==> r[i] == UpperAscii(s[i])
  {
    seq(|s|, i requires 0 <= i < |s| => UpperAscii(s[i]))
  }

  /** Upper-casing works character by character, so it commutes with dropping a prefix. */
  lemma UpperDropTwo(s: string)
    requires |s| >= 2
    ensures Upper(s) == [UpperAscii(s[0]), UpperAscii(s[1])] + Upper(s[2..])
  {
    var r := [UpperAscii(s[0]), UpperAscii(s[1])] + Upper(s[2..]);
    forall i | 2 <= i < |s| ensures r[i] == Upper(s)[i] {
      assert r[i] == Upper(s[2..])[i - 2];
    }
  }

  /** Ignoring case is the same as comparing the upper-cased strings; in particular
      it is symmetric and transitive. */
  lemma EqualsIgnoreCaseIffUpper(a: string, b: string)
    ensures EqualsIgnoreCase(a, b) <==> Upper(a) == Upper(b)
  {
    if EqualsIgnoreCase(a, b) {
      forall i | 0 <= i < |a| ensures Upper(a)[i] == Upper(b)[i] {
        assert CharEqualsIgnoreCase(a[i], b[i]);
      }
    }
    if Upper(a) == Upper(b) {
      forall i | 0 <= i < |a| ensures CharEqualsIgnoreCase(a[i], b[i]) {
        assert Upper(a)[i] == Upper(b)[i];
      }
    }
  }
}
