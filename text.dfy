/**
 * The handful of Python `str` builtins the core relies on, over `string`
 * (a sequence of Unicode code points): `strip`, `lower` (ASCII letters only),
 * `in`, splitting on the first separator, `"\n".join`, `split("\n")` and the
 * `<` order of strings.
 */
module Text {

  /** The characters Python's `str.isspace` accepts; `strip()` removes exactly these. */
  predicate IsSpace(c: char)
  {
    c == ' ' || ('\t' <= c <= '\r') || ('\U{1C}' <= c <= '\U{1F}') ||
    c == '\U{85}' || c == '\U{A0}' || c == '\U{1680}' ||
    ('\U{2000}' <= c <= '\U{200A}') || c == '\U{2028}' || c == '\U{2029}' ||
    c == '\U{202F}' || c == '\U{205F}' || c == '\U{3000}'
  }

  /** Every character of `s` is white space (Python: `not s.strip()`). */
  predicate IsBlank(s: string)
  {
    forall i :: 0 <= i < |s| ==> IsSpace(s[i])
  }

  /** Neither end of `s` is white space: `s` is its own `strip()`. */
  predicate IsTrimmed(s: string)
  {
    s == [] || (!IsSpace(s[0]) && !IsSpace(s[|s| - 1]))
  }

  /** `s.lstrip()`: the suffix of `s` left after dropping leading white space. */
  function TrimStart(s: string): (r: string)
    ensures |r| <= |s| && r == s[|s| - |r|..]
    ensures forall i :: 0 <= i < |s| - |r| ==> IsSpace(s[i])
    ensures r == [] || !IsSpace(r[0])
  {
    if s != [] && IsSpace(s[0]) then TrimStart(s[1..]) else s
  }

  /** `s.rstrip()`: the prefix of `s` left after dropping trailing white space. */
  function TrimEnd(s: string): (r: string)
    ensures |r| <= |s| && r == s[..|r|]
    ensures forall i :: |r| <= i < |s| ==> IsSpace(s[i])
    ensures r == [] || !IsSpace(r[|r| - 1])
  {
    if s != [] && IsSpace(s[|s| - 1]) then TrimEnd(s[..|s| - 1]) else s
  }

  /** `s.strip()`. */
  function Strip(s: string): (r: string)
    ensures IsTrimmed(r)
    ensures r == [] <==> IsBlank(s)
    ensures |r| <= |s|
  {
    var t := TrimStart(s);
    var r := TrimEnd(t);
    assert r != [] ==> !IsSpace(r[0]) by {
      if r != [] { assert r[0] == t[0]; }
    }
    r
  }

  /** A string already without surrounding white space is its own `strip()`. */
  lemma StripTrimmed(s: string)
    requires IsTrimmed(s)
    ensures Strip(s) == s
  {
    assert TrimStart(s) == s;
    assert TrimEnd(s) == s;
  }

  /** `strip()` is idempotent. */
  lemma StripIdempotent(s: string)
    ensures Strip(Strip(s)) == Strip(s)
  {
    StripTrimmed(Strip(s));
  }

  /** Python's `str.lower` restricted to ASCII letters. */
  function LowerChar(c: char): (r: char)
    ensures ('A' <= c <= 'Z') ==> r as int == c as int + 32
    ensures !('A' <= c <= 'Z') ==> r == c
  {
    if 'A' <= c <= 'Z' then (c as int + 32) as char else c
  }

  function Lower(s: string): (r: string)
    ensures |r| == |s|
    ensures forall i :: 0 <= i < |s| ==> r[i] == LowerChar(s[i])
  {
    seq(|s|, i requires 0 <= i < |s| => LowerChar(s[i]))
  }

  /** The position of the first `c` in `s` (Python: `s.index(c)`). */
  function IndexOf(s: string, c: char): (i: nat)
    requires c in s
    ensures i < |s| && s[i] == c && c !in s[..i]
  {
    if s[0] == c then 0 else 1 + IndexOf(s[1..], c)
  }

  /** `s.split(c, 1)` when `c` occurs in `s`: the parts before and after its first occurrence. */
  function SplitFirst(s: string, c: char): (parts: (string, string))
    requires c in s
    ensures c !in parts.0
    ensures s == parts.0 + [c] + parts.1
  {
    var i := IndexOf(s, c);
    assert s == s[..i] + [c] + s[i + 1..];
    (s[..i], s[i + 1..])
  }

  /** Splitting `a + [c] + b` on its first `c` gives back `a` and `b` when `a` has no `c`. */
  lemma {:induction false} IndexOfJoined(a: string, c: char, b: string)
    requires c !in a
    ensures c in a + [c] + b
    ensures IndexOf(a + [c] + b, c) == |a|
  {
    var s := a + [c] + b;
    assert s[|a|] == c;
    if a != [] {
      assert s[1..] == a[1..] + [c] + b;
      IndexOfJoined(a[1..], c, b);
    }
  }

  lemma SplitFirstJoined(a: string, c: char, b: string)
    requires c !in a
    ensures c in a + [c] + b
    ensures SplitFirst(a + [c] + b, c) == (a, b)
  {
    var s := a + [c] + b;
    IndexOfJoined(a, c, b);
    assert s[..|a|] == a;
    assert s[|a| + 1..] == b;
  }

  /** Python's string order `a <= b`: lexicographic by code point, a prefix first. */
  predicate LexLe(a: string, b: string)
  {
    a == [] || (b != [] && (a[0] < b[0] || (a[0] == b[0] && LexLe(a[1..], b[1..]))))
  }

  lemma {:induction false} LexLeTotal(a: string, b: string)
    ensures LexLe(a, b) || LexLe(b, a)
  {
    if a != [] && b != [] && a[0] == b[0] {
      LexLeTotal(a[1..], b[1..]);
    }
  }

  lemma {:induction false} LexLeAntisymmetric(a: string, b: string)
    requires LexLe(a, b) && LexLe(b, a)
    ensures a == b
  {
    if a != [] && b != [] {
      LexLeAntisymmetric(a[1..], b[1..]);
      assert a == [a[0]] + a[1..] && b == [b[0]] + b[1..];
    }
  }

  lemma {:induction false} LexLeTransitive(a: string, b: string, c: string)
    requires LexLe(a, b) && LexLe(b, c)
    ensures LexLe(a, c)
  {
    if a != [] && b != [] && c != [] && a[0] == b[0] && b[0] == c[0] {
      LexLeTransitive(a[1..], b[1..], c[1..]);
    }
  }

  /** Python's `"\n".join(lines)`. */
  function JoinLines(lines: seq<string>): (r: string)
    ensures lines == [] ==> r == ""
  {
    if lines == [] then "" else if |lines| == 1 then lines[0] else lines[0] + "\n" + JoinLines(lines[1..])
  }

  /** Python's `s.split("\n")`: never empty, one more piece than there are line feeds. */
  function SplitLines(s: string): (pieces: seq<string>)
    ensures |pieces| >= 1
    ensures forall i :: 0 <= i < |pieces| ==> '\n' !in pieces[i]
    ensures JoinLines(pieces) == s
  {
    if '\n' !in s then [s]
    else
      var (head, tail) := SplitFirst(s, '\n');
      [head] + SplitLines(tail)
  }
}
