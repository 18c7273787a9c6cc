/**
 * The text helpers of the web front end (`flask_app.py`): the multi-line
 * cleaner used on quoted questions, the per-key counter of the statistics
 * page, the status filter options and the line parser of internal notes.
 */
module FlaskText {
  import opened Wrappers
  import opened Text
  import Sorting

  // ---------------------------------------------------------------------------
  // normalize_multiline
  // ---------------------------------------------------------------------------

  /** `value.replace("\r\n", "\n")`: every CR LF pair, scanned left to right, becomes one LF. */
  function ReplaceCrLf(s: string): (r: string)
    ensures |r| <= |s|
    ensures forall c :: c in r ==> c in s
    ensures '\r' !in s ==> r == s
  {
    if |s| >= 2 && s[0] == '\r' && s[1] == '\n' then "\n" + ReplaceCrLf(s[2..])
    else if s == [] then []
    else [s[0]] + ReplaceCrLf(s[1..])
  }

  /** `.replace("\r", "\n")`: every remaining CR becomes an LF. */
  function ReplaceCr(s: string): (r: string)
    ensures |r| == |s|
    ensures '\r' !in r
    ensures forall i :: 0 <= i < |s| ==> r[i] == if s[i] == '\r' then '\n' else s[i]
  {
    seq(|s|, i requires 0 <= i < |s| => if s[i] == '\r' then '\n' else s[i])
  }

  /** No line feed follows another. */
  predicate NoBlankRun(s: string)
  {
    forall i :: 0 <= i < |s| - 1 ==> !(s[i] == '\n' && s[i + 1] == '\n')
  }

  /** `re.sub(r"\n{2,}", "\n", value)`: each run of line feeds shrinks to one. */
  function CollapseNewlines(s: string): (r: string)
    ensures NoBlankRun(r)
    ensures s == [] <==> r == []
    ensures s != [] ==> r[0] == s[0]
    ensures forall c :: c in r ==> c in s
    ensures NoBlankRun(s) ==> r == s
  {
    if |s| >= 2 && s[0] == '\n' && s[1] == '\n' then CollapseNewlines(s[1..])
    else if s == [] then []
    else [s[0]] + CollapseNewlines(s[1..])
  }

  /** A line holding only a quote marker and white space (see `QuoteOnlyIsStrip`). */
  predicate QuoteOnly(line: string)
  {
    exists k :: 0 <= k < |line| && line[k] == '>' && IsBlank(line[..k]) && IsBlank(line[k + 1..])
  }

  /** White space before a non-space character is what `lstrip` drops. */
  lemma {:induction false} TrimStartAt(s: string, k: int)
    requires 0 <= k < |s| && IsBlank(s[..k]) && !IsSpace(s[k])
    ensures TrimStart(s) == s[k..]
  {
    if k > 0 {
      assert IsSpace(s[..k][0]);
      assert s[1..][..k - 1] == s[1..k];
      TrimStartAt(s[1..], k - 1);
      assert s[1..][k - 1..] == s[k..];
    }
  }

  /** White space after a non-space character is what `rstrip` drops. */
  lemma {:induction false} TrimEndAt(s: string, k: int)
    requires 0 <= k < |s| && IsBlank(s[k + 1..]) && !IsSpace(s[k])
    ensures TrimEnd(s) == s[..k + 1]
  {
    if k < |s| - 1 {
      assert IsSpace(s[k + 1..][|s| - k - 2]);
      var t := s[..|s| - 1];
      assert t[k + 1..] == s[k + 1..|s| - 1];
      TrimEndAt(t, k);
      assert t[..k + 1] == s[..k + 1];
    }
  }

  /** `QuoteOnly` is Python's `ln.strip() == ">"`. */
  lemma QuoteOnlyIsStrip(line: string)
    ensures QuoteOnly(line) <==> Strip(line) == ">"
  {
    if QuoteOnly(line) {
      QuoteOnlyStrips(line);
    }
    if Strip(line) == ">" {
      StripGivesQuoteOnly(line);
    }
  }

  lemma QuoteOnlyStrips(line: string)
    requires QuoteOnly(line)
    ensures Strip(line) == ">"
  {
    var k :| 0 <= k < |line| && line[k] == '>' && IsBlank(line[..k]) && IsBlank(line[k + 1..]);
    var t := line[k..];
    TrimStartAt(line, k);
    assert t[1..] == line[k + 1..];
    TrimEndAt(t, 0);
    assert Strip(line) == TrimEnd(t) == t[..1];
    assert t[..1] == ['>'];
  }

  lemma StripGivesQuoteOnly(line: string)
    requires Strip(line) == ">"
    ensures QuoteOnly(line)
  {
    var t := TrimStart(line);
    var r := TrimEnd(t);
    var k := |line| - |t|;
    assert r == t[..1] && t[0] == '>';
    assert line[k] == '>';
    var before := line[..k];
    assert IsBlank(before) by {
      forall i | 0 <= i < |before| ensures IsSpace(before[i]) {
        assert before[i] == line[i];
      }
    }
    var after := line[k + 1..];
    assert IsBlank(after) by {
      forall i | 0 <= i < |after| ensures IsSpace(after[i]) {
        assert after[i] == t[i + 1];
      }
    }
  }

  /**
   * The lines the loop keeps: a quote-only line right after a quote-only
   * line is dropped, and the flag stays set across the dropped line.
   */
  function Deduplicated(lines: seq<string>, prevQuoteOnly: bool): seq<string>
  {
    if lines == [] then []
    else if QuoteOnly(lines[0]) && prevQuoteOnly then Deduplicated(lines[1..], true)
    else [lines[0]] + Deduplicated(lines[1..], QuoteOnly(lines[0]))
  }

  /** The lines of `value` after line-ending clean-up, before the loop. */
  function CleanLines(value: string): (lines: seq<string>)
    ensures |lines| >= 1
  {
    SplitLines(CollapseNewlines(ReplaceCr(ReplaceCrLf(value))))
  }

  /** What `normalize_multiline` returns. */
  function Normalized(value: string): string
  {
    if value == "" then "" else JoinLines(Deduplicated(CleanLines(value), false))
  }

  /** One step of the loop: how the kept lines from `i` on begin. */
  lemma DeduplicatedStep(lines: seq<string>, i: int, prev: bool)
    requires 0 <= i < |lines|
    ensures Deduplicated(lines[i..], prev) ==
      if QuoteOnly(lines[i]) && prev then Deduplicated(lines[i + 1..], true)
      else [lines[i]] + Deduplicated(lines[i + 1..], QuoteOnly(lines[i]))
  {
    assert lines[i..][0] == lines[i] && lines[i..][1..] == lines[i + 1..];
  }

  /** `normalize_multiline`: line endings cleaned up, then the loop over the lines. */
  method NormalizeMultiline(value: string) returns (r: string)
    ensures r == Normalized(value)
  {
    if value == "" {
      return "";
    }
    var out := DropRepeatedQuotes(CleanLines(value));
    r := JoinLines(out);
  }

  /** The loop of `normalize_multiline`, carrying the `prev_quote_only` flag. */
  method DropRepeatedQuotes(lines: seq<string>) returns (out: seq<string>)
    ensures out == Deduplicated(lines, false)
  {
    out := [];
    var prevQuoteOnly := false;
    var i := 0;
    while i < |lines|
      invariant 0 <= i <= |lines|
      invariant out + Deduplicated(lines[i..], prevQuoteOnly) == Deduplicated(lines, false)
    {
      var quoteOnly := QuoteOnly(lines[i]);
      DeduplicatedStep(lines, i, prevQuoteOnly);
      if !(quoteOnly && prevQuoteOnly) {
        ghost var rest := Deduplicated(lines[i + 1..], quoteOnly);
        assert out + [lines[i]] + rest == out + ([lines[i]] + rest);
        out := out + [lines[i]];
        prevQuoteOnly := quoteOnly;
      }
      i := i + 1;
    }
    assert lines[|lines|..] == [];
  }

  /** The lines other than quote-only ones, in order. */
  function Substantive(lines: seq<string>): (r: seq<string>)
    ensures forall l :: l in r ==> l in lines && !QuoteOnly(l)
  {
    if lines == [] then []
    else (if QuoteOnly(lines[0]) then [] else [lines[0]]) + Substantive(lines[1..])
  }

  /** No two neighbouring lines are both quote-only. */
  predicate NoRepeatedQuote(lines: seq<string>)
  {
    forall i :: 0 <= i < |lines| - 1 ==> !(QuoteOnly(lines[i]) && QuoteOnly(lines[i + 1]))
  }

  /** Only the last line may be empty. */
  predicate EmptyOnlyLast(lines: seq<string>)
  {
    forall i :: 0 <= i < |lines| - 1 ==> lines[i] != ""
  }

  predicate NoLineFeeds(lines: seq<string>)
  {
    forall i :: 0 <= i < |lines| ==> '\n' !in lines[i]
  }

  /** The loop drops only quote-only lines: the other lines survive, in order. */
  lemma {:induction false} DeduplicatedKeepsSubstantive(lines: seq<string>, prev: bool)
    ensures Substantive(Deduplicated(lines, prev)) == Substantive(lines)
  {
    if lines != [] {
      if QuoteOnly(lines[0]) && prev {
        DeduplicatedKeepsSubstantive(lines[1..], true);
      } else {
        DeduplicatedKeepsSubstantive(lines[1..], QuoteOnly(lines[0]));
        var d := Deduplicated(lines, prev);
        assert d == [lines[0]] + Deduplicated(lines[1..], QuoteOnly(lines[0]));
        assert d[1..] == Deduplicated(lines[1..], QuoteOnly(lines[0]));
      }
    }
  }

  /** The loop leaves no two quote-only lines side by side. */
  lemma {:induction false} DeduplicatedNoRepeatedQuote(lines: seq<string>, prev: bool)
    ensures NoRepeatedQuote(Deduplicated(lines, prev))
    ensures prev && Deduplicated(lines, prev) != [] ==> !QuoteOnly(Deduplicated(lines, prev)[0])
  {
    if lines != [] {
      if QuoteOnly(lines[0]) && prev {
        DeduplicatedNoRepeatedQuote(lines[1..], true);
      } else {
        var rest := Deduplicated(lines[1..], QuoteOnly(lines[0]));
        DeduplicatedNoRepeatedQuote(lines[1..], QuoteOnly(lines[0]));
        var d := Deduplicated(lines, prev);
        assert d == [lines[0]] + rest;
        forall i | 0 <= i < |d| - 1 ensures !(QuoteOnly(d[i]) && QuoteOnly(d[i + 1])) {
          if i > 0 {
            assert d[i] == rest[i - 1] && d[i + 1] == rest[i];
          } else {
            assert d[1] == rest[0];
          }
        }
      }
    }
  }

  /** The loop keeps a subsequence: only input lines, and an empty line only as the last. */
  lemma {:induction false} DeduplicatedSubsequence(lines: seq<string>, prev: bool)
    ensures forall l :: l in Deduplicated(lines, prev) ==> l in lines
    ensures EmptyOnlyLast(lines) ==> EmptyOnlyLast(Deduplicated(lines, prev))
  {
    if lines != [] {
      if QuoteOnly(lines[0]) && prev {
        DeduplicatedSubsequence(lines[1..], true);
      } else {
        var rest := Deduplicated(lines[1..], QuoteOnly(lines[0]));
        DeduplicatedSubsequence(lines[1..], QuoteOnly(lines[0]));
        var d := Deduplicated(lines, prev);
        assert d == [lines[0]] + rest;
        if EmptyOnlyLast(lines) {
          forall i | 0 <= i < |d| - 1 ensures d[i] != "" {
            if i > 0 {
              assert d[i] == rest[i - 1];
            } else {
              assert rest[0] in lines[1..];
            }
          }
        }
      }
    }
  }

  /** Splitting a text with no blank-line run, not starting with a line feed, gives no empty line but the last. */
  lemma {:induction false} SplitLinesEmptyOnlyLast(s: string)
    requires NoBlankRun(s) && (s == [] || s[0] != '\n')
    ensures EmptyOnlyLast(SplitLines(s))
  {
    if '\n' in s {
      var (head, tail) := SplitFirst(s, '\n');
      assert s == head + "\n" + tail;
      assert s[0] == if head == "" then '\n' else head[0];
      if tail != [] {
        assert s[|head|] == '\n' && s[|head| + 1] == tail[0];
      }
      assert NoBlankRun(tail) by {
        forall i | 0 <= i < |tail| - 1 ensures !(tail[i] == '\n' && tail[i + 1] == '\n') {
          assert tail[i] == s[|head| + 1 + i] && tail[i + 1] == s[|head| + 2 + i];
        }
      }
      SplitLinesEmptyOnlyLast(tail);
      assert SplitLines(s) == [head] + SplitLines(tail);
    }
  }

  /** Joining lines free of line feeds, where only the last may be empty, gives no blank-line run. */
  lemma {:induction false} JoinNoBlankRun(lines: seq<string>)
    requires NoLineFeeds(lines) && EmptyOnlyLast(lines)
    ensures NoBlankRun(JoinLines(lines))
    ensures |lines| >= 2 ==> JoinLines(lines)[0] != '\n'
    ensures |lines| == 1 ==> JoinLines(lines) == lines[0]
  {
    if |lines| >= 2 {
      var rest := lines[1..];
      JoinNoBlankRun(rest);
      var j := JoinLines(rest);
      var s := JoinLines(lines);
      assert s == lines[0] + "\n" + j;
      assert lines[0] != "" && '\n' !in lines[0];
      assert lines[0][0] != '\n';
      assert j != [] ==> j[0] != '\n' by {
        if |rest| == 1 {
          assert j == rest[0] && '\n' !in rest[0];
        }
      }
      forall i | 0 <= i < |s| - 1 ensures !(s[i] == '\n' && s[i + 1] == '\n') {
        if i < |lines[0]| {
          assert s[i] == lines[0][i];
        } else if i == |lines[0]| {
          assert i + 1 < |s| ==> s[i + 1] == j[0];
        } else {
          assert s[i] == j[i - |lines[0]| - 1];
        }
      }
    }
  }

  /** Characters of joined lines come from the lines or are line feeds. */
  lemma {:induction false} JoinLinesChars(lines: seq<string>, c: char)
    requires c in JoinLines(lines) && c != '\n'
    ensures exists i :: 0 <= i < |lines| && c in lines[i]
  {
    if |lines| == 1 {
      assert c in lines[0];
    } else if |lines| > 1 {
      assert JoinLines(lines) == lines[0] + "\n" + JoinLines(lines[1..]);
      if c !in lines[0] {
        JoinLinesChars(lines[1..], c);
        var i :| 0 <= i < |lines[1..]| && c in lines[1..][i];
        assert c in lines[i + 1];
      }
    }
  }

  /** Characters of the lines are characters of their join. */
  lemma {:induction false} LineCharsJoined(lines: seq<string>, i: int, c: char)
    requires 0 <= i < |lines| && c in lines[i]
    ensures c in JoinLines(lines)
  {
    if |lines| > 1 {
      assert JoinLines(lines) == lines[0] + "\n" + JoinLines(lines[1..]);
      if i > 0 {
        LineCharsJoined(lines[1..], i - 1, c);
      }
    }
  }

  /** Splitting the join of lines free of line feeds gives the lines back. */
  lemma {:induction false} SplitJoinedLines(lines: seq<string>)
    requires lines != [] && NoLineFeeds(lines)
    ensures SplitLines(JoinLines(lines)) == lines
  {
    if |lines| > 1 {
      var j := JoinLines(lines[1..]);
      assert JoinLines(lines) == lines[0] + ['\n'] + j;
      assert '\n' !in lines[0] && NoLineFeeds(lines[1..]);
      SplitFirstJoined(lines[0], '\n', j);
      assert SplitLines(JoinLines(lines)) == [lines[0]] + SplitLines(j);
      SplitJoinedLines(lines[1..]);
      assert lines == [lines[0]] + lines[1..];
    } else {
      assert '\n' !in lines[0];
    }
  }

  /** `normalize_multiline("")` is the empty string. */
  lemma EmptyStaysEmpty()
    ensures Normalized("") == ""
  {
  }

  /** After its first piece, splitting a text with no blank-line run gives no empty line but the last. */
  lemma {:induction false} SplitTailEmptyOnlyLast(text: string)
    requires NoBlankRun(text)
    ensures EmptyOnlyLast(SplitLines(text)[1..])
  {
    if '\n' in text {
      var (head, tail) := SplitFirst(text, '\n');
      assert text == head + "\n" + tail;
      if tail != [] {
        assert text[|head|] == '\n' && text[|head| + 1] == tail[0];
      }
      assert NoBlankRun(tail) by {
        forall i | 0 <= i < |tail| - 1 ensures !(tail[i] == '\n' && tail[i + 1] == '\n') {
          assert tail[i] == text[|head| + 1 + i] && tail[i + 1] == text[|head| + 2 + i];
        }
      }
      SplitLinesEmptyOnlyLast(tail);
      assert SplitLines(text)[1..] == SplitLines(tail);
    }
  }

  /** A first line of any kind, then lines where only the last may be empty: the join has no blank-line run. */
  lemma {:induction false} JoinAfterFirstNoBlankRun(first: string, rest: seq<string>)
    requires '\n' !in first && NoLineFeeds(rest) && EmptyOnlyLast(rest)
    ensures NoBlankRun(JoinLines([first] + rest))
  {
    var lines := [first] + rest;
    assert lines[1..] == rest;
    if rest == [] {
      assert JoinLines(lines) == first;
    } else {
      var j := JoinLines(rest);
      var s := JoinLines(lines);
      assert s == first + "\n" + j;
      JoinNoBlankRun(rest);
      assert j != [] ==> j[0] != '\n' by {
        if |rest| == 1 {
          assert j == rest[0] && '\n' !in rest[0];
        }
      }
      forall i | 0 <= i < |s| - 1 ensures !(s[i] == '\n' && s[i + 1] == '\n') {
        if i < |first| {
          assert s[i] == first[i];
        } else if i == |first| {
          assert i + 1 < |s| ==> s[i + 1] == j[0];
        } else {
          assert s[i] == j[i - |first| - 1] && s[i + 1] == j[i - |first|];
        }
      }
    }
  }

  /** The lines the loop keeps hold no line feed when the input lines hold none. */
  lemma DeduplicatedNoLineFeeds(lines: seq<string>, prev: bool)
    requires NoLineFeeds(lines)
    ensures NoLineFeeds(Deduplicated(lines, prev))
  {
    var out := Deduplicated(lines, prev);
    DeduplicatedSubsequence(lines, prev);
    forall i | 0 <= i < |out| ensures '\n' !in out[i] {
      assert out[i] in lines;
    }
  }

  /** Splitting a text with no blank-line run, then the loop, then the join: still no blank-line run. */
  lemma {:induction false} CleanedNoBlankRun(text: string)
    requires NoBlankRun(text)
    ensures NoBlankRun(JoinLines(Deduplicated(SplitLines(text), false)))
  {
    var lines := SplitLines(text);
    var out := Deduplicated(lines, false);
    var rest := Deduplicated(lines[1..], QuoteOnly(lines[0]));
    assert lines == [lines[0]] + lines[1..];
    assert out == [lines[0]] + rest;
    assert NoLineFeeds(lines[1..]) by {
      forall i | 0 <= i < |lines[1..]| ensures '\n' !in lines[1..][i] {
        assert lines[1..][i] == lines[i + 1];
      }
    }
    DeduplicatedNoLineFeeds(lines[1..], QuoteOnly(lines[0]));
    SplitTailEmptyOnlyLast(text);
    DeduplicatedSubsequence(lines[1..], QuoteOnly(lines[0]));
    JoinAfterFirstNoBlankRun(lines[0], rest);
  }

  /** The cleaned text holds no blank-line run. */
  lemma NormalizedNoBlankRun(value: string)
    ensures NoBlankRun(Normalized(value))
  {
    if value != "" {
      CleanedNoBlankRun(CollapseNewlines(ReplaceCr(ReplaceCrLf(value))));
    }
  }

  /** Splitting a text without carriage returns, then the loop, then the join: still none. */
  lemma {:induction false} CleanedNoCarriageReturn(text: string)
    requires '\r' !in text
    ensures '\r' !in JoinLines(Deduplicated(SplitLines(text), false))
  {
    var lines := SplitLines(text);
    var out := Deduplicated(lines, false);
    if '\r' in JoinLines(out) {
      JoinLinesChars(out, '\r');
      var i :| 0 <= i < |out| && '\r' in out[i];
      DeduplicatedSubsequence(lines, false);
      assert out[i] in lines;
      var k :| 0 <= k < |lines| && lines[k] == out[i];
      LineCharsJoined(lines, k, '\r');
      assert false;
    }
  }

  /** The cleaned text holds no carriage return. */
  lemma NormalizedNoCarriageReturn(value: string)
    ensures '\r' !in Normalized(value)
  {
    if value != "" {
      CleanedNoCarriageReturn(CollapseNewlines(ReplaceCr(ReplaceCrLf(value))));
    }
  }

  /**
   * Splitting the result again gives the lines the loop kept: no two
   * neighbouring lines are quote-only, and every other line survives in order.
   */
  lemma {:induction false} KeptLines(lines: seq<string>)
    requires lines != [] && NoLineFeeds(lines)
    ensures SplitLines(JoinLines(Deduplicated(lines, false))) == Deduplicated(lines, false)
    ensures NoRepeatedQuote(SplitLines(JoinLines(Deduplicated(lines, false))))
    ensures Substantive(SplitLines(JoinLines(Deduplicated(lines, false)))) == Substantive(lines)
  {
    var out := Deduplicated(lines, false);
    assert lines == [lines[0]] + lines[1..];
    assert out != [];
    DeduplicatedNoLineFeeds(lines, false);
    SplitJoinedLines(out);
    DeduplicatedNoRepeatedQuote(lines, false);
    DeduplicatedKeepsSubstantive(lines, false);
  }

  /** The same, for the lines of `normalize_multiline`'s result. */
  lemma NormalizedLines(value: string)
    requires value != ""
    ensures SplitLines(Normalized(value)) == Deduplicated(CleanLines(value), false)
    ensures NoRepeatedQuote(SplitLines(Normalized(value)))
    ensures Substantive(SplitLines(Normalized(value))) == Substantive(CleanLines(value))
  {
    KeptLines(CleanLines(value));
  }

  // ---------------------------------------------------------------------------
  // count_by (statistics page)
  // ---------------------------------------------------------------------------

  /** The sum of the counts. */
  function Total(pairs: seq<(string, nat)>): nat
  {
    if pairs == [] then 0 else pairs[0].1 + Total(pairs[1..])
  }

  /** The sum of the counts `m` gives to `keys`. */
  function SumOver(keys: seq<string>, m: map<string, nat>): nat
    requires forall k :: k in keys ==> k in m
  {
    if keys == [] then 0 else m[keys[0]] + SumOver(keys[1..], m)
  }

  /** `sorted(..., key=lambda kv: kv[1], reverse=True)`: larger counts first. */
  function MoreFrequent(a: (string, nat), b: (string, nat)): bool
  {
    a.1 >= b.1
  }

  lemma MoreFrequentTotalPreorder()
    ensures Sorting.TotalPreorder(MoreFrequent)
  {
  }

  lemma {:induction false} SumOverOther(keys: seq<string>, m: map<string, nat>, k: string, n: nat)
    requires forall x :: x in keys ==> x in m
    requires k !in keys
    ensures SumOver(keys, m[k := n]) == SumOver(keys, m)
  {
    if keys != [] {
      SumOverOther(keys[1..], m, k, n);
    }
  }

  lemma {:induction false} SumOverIncrement(keys: seq<string>, m: map<string, nat>, k: string)
    requires forall x :: x in keys ==> x in m
    requires k in m && multiset(keys)[k] == 1
    ensures SumOver(keys, m[k := m[k] + 1]) == SumOver(keys, m) + 1
  {
    assert keys == [keys[0]] + keys[1..];
    if keys[0] == k {
      assert k !in keys[1..];
      SumOverOther(keys[1..], m, k, m[k] + 1);
    } else {
      SumOverIncrement(keys[1..], m, k);
    }
  }

  lemma {:induction false} SumOverAppend(keys: seq<string>, m: map<string, nat>, k: string)
    requires forall x :: x in keys ==> x in m
    requires k in m
    ensures SumOver(keys + [k], m) == SumOver(keys, m) + m[k]
  {
    if keys != [] {
      assert (keys + [k])[1..] == keys[1..] + [k];
      SumOverAppend(keys[1..], m, k);
    } else {
      assert SumOver([k], m) == m[k] + SumOver([], m);
    }
  }

  /** The (value, count) pairs of `keys`, in dict order. */
  function Pairs(keys: seq<string>, m: map<string, nat>): (r: seq<(string, nat)>)
    requires forall k :: k in keys ==> k in m
    ensures |r| == |keys|
    ensures Total(r) == SumOver(keys, m)
    ensures forall p :: p in r ==> p.0 in keys && p.1 == m[p.0]
    ensures forall k :: k in keys ==> (k, m[k]) in r
  {
    if keys == [] then [] else
      var rest := Pairs(keys[1..], m);
      assert ([(keys[0], m[keys[0]])] + rest)[1..] == rest;
      [(keys[0], m[keys[0]])] + rest
  }

  lemma {:induction false} TotalInsert(x: (string, nat), s: seq<(string, nat)>)
    ensures Total(Sorting.Insert(x, s, MoreFrequent)) == x.1 + Total(s)
  {
    if s != [] && !MoreFrequent(x, s[0]) {
      TotalInsert(x, s[1..]);
      assert ([s[0]] + Sorting.Insert(x, s[1..], MoreFrequent))[1..] == Sorting.Insert(x, s[1..], MoreFrequent);
    } else if s != [] {
      assert ([x] + s)[1..] == s;
    }
  }

  lemma {:induction false} TotalSorted(s: seq<(string, nat)>)
    ensures Total(Sorting.SortBy(s, MoreFrequent)) == Total(s)
  {
    if s != [] {
      TotalSorted(s[1..]);
      TotalInsert(s[0], Sorting.SortBy(s[1..], MoreFrequent));
    }
  }

  /**
   * `count_by`: counts each value in a dict, then orders the (value, count)
   * pairs by decreasing count. `values` are the items' fields, missing ones
   * already read as "".
   */
  method CountBy(values: seq<string>) returns (r: seq<(string, nat)>)
    ensures Total(r) == |values|
    ensures forall p :: p in r ==> p.0 in values && p.1 == multiset(values)[p.0]
    ensures forall v :: v in values ==> (v, multiset(values)[v]) in r
    ensures Sorting.SortedBy(r, MoreFrequent)
  {
    var counts, order := Tally(values);
    var pairs := Pairs(order, counts);
    MoreFrequentTotalPreorder();
    Sorting.SortBySorted(pairs, MoreFrequent);
    TotalSorted(pairs);
    r := Sorting.SortBy(pairs, MoreFrequent);
    assert forall p :: p in r <==> p in pairs by {
      forall p ensures p in r <==> p in pairs {
        assert p in r <==> p in multiset(r);
      }
    }
  }

  /** The loop of `count_by`: `order` lists the dict's keys in insertion order. */
  method Tally(values: seq<string>) returns (counts: map<string, nat>, order: seq<string>)
    ensures forall k :: k in order <==> k in counts
    ensures forall k :: k in counts <==> k in values
    ensures forall k :: k in counts ==> counts[k] == multiset(values)[k]
    ensures SumOver(order, counts) == |values|
  {
    counts, order := map[], [];
    var i := 0;
    while i < |values|
      invariant 0 <= i <= |values|
      invariant forall k :: k in order <==> k in counts
      invariant forall k :: k in counts <==> k in values[..i]
      invariant forall k :: k in counts ==> counts[k] == multiset(values[..i])[k] && multiset(order)[k] == 1
      invariant SumOver(order, counts) == i
    {
      var v := values[i];
      assert values[..i + 1] == values[..i] + [v];
      if v in counts {
        SumOverIncrement(order, counts, v);
        counts := counts[v := counts[v] + 1];
      } else {
        SumOverOther(order, counts, v, 1);
        counts := counts[v := 1];
        SumOverAppend(order, counts, v);
        order := order + [v];
      }
      i := i + 1;
    }
    assert values[..i] == values;
  }

  // ---------------------------------------------------------------------------
  // _status_options (statistics listing filter)
  // ---------------------------------------------------------------------------

  /** The statuses offered first, in this order. */
  const Preferred: seq<string> := ["OK", "KO MYM", "KO AGENTE", "DUDA", "FDS", "Pendiente"]

  /** The rank of a preferred status is its position; any other status ranks 10000. */
  function Rank(status: string): (r: nat)
    ensures status in Preferred ==> r < |Preferred| && Preferred[r] == status
    ensures status !in Preferred ==> r == 10000
  {
    if status == "OK" then 0
    else if status == "KO MYM" then 1
    else if status == "KO AGENTE" then 2
    else if status == "DUDA" then 3
    else if status == "FDS" then 4
    else if status == "Pendiente" then 5
    else 10000
  }

  /** The sort key `(order.get(s, 10_000), s)`, compared as a tuple. */
  predicate StatusLe(a: string, b: string)
  {
    Rank(a) < Rank(b) || (Rank(a) == Rank(b) && LexLe(a, b))
  }

  lemma StatusLeTotalPreorder()
    ensures Sorting.TotalPreorder(StatusLe)
  {
    forall a, b ensures StatusLe(a, b) || StatusLe(b, a) {
      LexLeTotal(a, b);
    }
    forall a, b, c | StatusLe(a, b) && StatusLe(b, c) ensures StatusLe(a, c) {
      if Rank(a) == Rank(b) == Rank(c) {
        LexLeTransitive(a, b, c);
      }
    }
  }

  /** Each status stripped. */
  function Stripped(statuses: seq<string>): (r: seq<string>)
    ensures |r| == |statuses|
    ensures forall i :: 0 <= i < |statuses| ==> r[i] == Strip(statuses[i])
  {
    seq(|statuses|, i requires 0 <= i < |statuses| => Strip(statuses[i]))
  }

  /** The distinct non-blank values, in order of first appearance. */
  function Found(values: seq<string>): (r: seq<string>)
    ensures forall x :: x in r <==> x != "" && x in values
    ensures forall x :: multiset(r)[x] <= 1
  {
    if values == [] then []
    else
      var init := values[..|values| - 1];
      var f := Found(init);
      var x := values[|values| - 1];
      assert values == init + [x];
      if x == "" || x in f then f else f + [x]
  }

  /**
   * `_status_options`: each status seen (stripped, blanks dropped) once,
   * preferred statuses first in their fixed order, then the rest in string
   * order. `statuses` are the items' status fields, missing ones read as "".
   */
  function StatusOptions(statuses: seq<string>): seq<string>
  {
    Sorting.SortBy(Found(Stripped(statuses)), StatusLe)
  }

  /** The options are exactly the statuses seen, each once, in key order. */
  lemma StatusOptionsProperties(statuses: seq<string>)
    ensures forall x :: x in StatusOptions(statuses) <==>
      x != "" && exists i :: 0 <= i < |statuses| && Strip(statuses[i]) == x
    ensures forall x :: multiset(StatusOptions(statuses))[x] <= 1
    ensures Sorting.SortedBy(StatusOptions(statuses), StatusLe)
  {
    var f := Found(Stripped(statuses));
    StatusLeTotalPreorder();
    Sorting.SortBySorted(f, StatusLe);
    var r := StatusOptions(statuses);
    assert multiset(r) == multiset(f);
    forall x ensures x in r <==> x in f {
      assert x in r <==> x in multiset(r);
      assert x in f <==> x in multiset(f);
    }
    StrippedMembers(statuses);
  }

  /** A value is among the stripped statuses exactly when some status strips to it. */
  lemma StrippedMembers(statuses: seq<string>)
    ensures forall x :: x in Stripped(statuses) <==> exists i :: 0 <= i < |statuses| && Strip(statuses[i]) == x
  {
    var stripped := Stripped(statuses);
    forall x ensures x in stripped <==> exists i :: 0 <= i < |statuses| && Strip(statuses[i]) == x {
      if x in stripped {
        var i :| 0 <= i < |stripped| && stripped[i] == x;
        assert Strip(statuses[i]) == x;
      }
    }
  }

  /** In a sequence holding each value at most once, two positions hold different values. */
  lemma DistinctAt(r: seq<string>, i: int, j: int)
    requires forall x :: multiset(r)[x] <= 1
    requires 0 <= i < j < |r|
    ensures r[i] != r[j]
  {
    assert r == r[..j] + r[j..];
    assert r[i] in r[..j] && r[j] in r[j..];
    assert multiset(r)[r[j]] == multiset(r[..j])[r[j]] + multiset(r[j..])[r[j]];
  }

  /** A preferred status is listed before any other, and preferred ones keep their fixed order. */
  lemma PreferredFirst(statuses: seq<string>, i: int, j: int)
    requires 0 <= i < j < |StatusOptions(statuses)|
    ensures StatusOptions(statuses)[j] in Preferred ==>
      StatusOptions(statuses)[i] in Preferred && Rank(StatusOptions(statuses)[i]) < Rank(StatusOptions(statuses)[j])
  {
    var r := StatusOptions(statuses);
    StatusOptionsProperties(statuses);
    DistinctAt(r, i, j);
    assert StatusLe(r[i], r[j]);
  }

  // ---------------------------------------------------------------------------
  // _parse_internal_note, its line parser
  // ---------------------------------------------------------------------------

  /** The line boundaries of Python's `str.splitlines`. */
  predicate IsLineBreak(c: char)
  {
    c == '\n' || c == '\r' || c == '\U{0B}' || c == '\U{0C}' || ('\U{1C}' <= c <= '\U{1E}') ||
    c == '\U{85}' || c == '\U{2028}' || c == '\U{2029}'
  }

  predicate NoBreak(s: string)
  {
    forall i :: 0 <= i < |s| ==> !IsLineBreak(s[i])
  }

  /** The position of the first line boundary. */
  function FirstBreak(s: string): (k: nat)
    requires !NoBreak(s)
    ensures k < |s| && IsLineBreak(s[k]) && NoBreak(s[..k])
  {
    if IsLineBreak(s[0]) then 0
    else
      FirstBreak(s[1..]) + 1
  }

  /**
   * The pieces between line boundaries. `splitlines` also treats CR LF as one
   * boundary and drops a final empty piece; both only add empty pieces here,
   * and the parser drops blank lines.
   */
  function BreakPieces(s: string): (pieces: seq<string>)
    ensures |pieces| >= 1
    ensures forall i :: 0 <= i < |pieces| ==> NoBreak(pieces[i])
    decreases |s|
  {
    if NoBreak(s) then [s]
    else
      var k := FirstBreak(s);
      [s[..k]] + BreakPieces(s[k + 1..])
  }

  /** `[ln.strip() for ln in lines if ln.strip()]`. */
  function NonBlankLines(pieces: seq<string>): (lines: seq<string>)
    ensures forall l :: l in lines ==> l != "" && IsTrimmed(l)
  {
    if pieces == [] then []
    else
      var l := Strip(pieces[0]);
      (if l == "" then [] else [l]) + NonBlankLines(pieces[1..])
  }

  /** One line: split at the first `:`, else at the first `=`, and strip both sides; otherwise nothing. */
  function LinePair(line: string): (r: Option<(string, string)>)
    ensures r.Some? <==> ':' in line || '=' in line
    ensures r.Some? ==> IsTrimmed(r.value.0) && IsTrimmed(r.value.1)
    ensures ':' in line ==> ':' !in r.value.0
  {
    if ':' in line then
      var (k, v) := SplitFirst(line, ':');
      Some((Strip(k), Strip(v)))
    else if '=' in line then
      var (k, v) := SplitFirst(line, '=');
      Some((Strip(k), Strip(v)))
    else None
  }

  /** The pairs of the lines that hold a separator, in order. */
  function NotePairs(lines: seq<string>): seq<(string, string)>
  {
    if lines == [] then []
    else (if LinePair(lines[0]).Some? then [LinePair(lines[0]).value] else []) + NotePairs(lines[1..])
  }

  /** `raw` has the shape the JSON branch tries first. */
  predicate LooksLikeJson(raw: string)
  {
    raw != [] && ((raw[0] == '{' && raw[|raw| - 1] == '}') || (raw[0] == '[' && raw[|raw| - 1] == ']'))
  }

  /**
   * What `_parse_internal_note` returns. `json` is what the JSON branch
   * yields: the pairs of an object or of a list, or `None` when `json.loads`
   * raised or gave something else.
   */
  function NoteReading(text: string, json: Option<seq<(string, string)>>): Option<seq<(string, string)>>
  {
    var raw := Strip(text);
    if raw == "" then None
    else if LooksLikeJson(raw) && json.Some? then json
    else
      var pairs := NotePairs(NonBlankLines(BreakPieces(raw)));
      if pairs == [] then None else Some(pairs)
  }

  /** `_parse_internal_note`, with its loop over the non-blank lines. */
  method ParseInternalNote(text: string, json: Option<seq<(string, string)>>) returns (r: Option<seq<(string, string)>>)
    ensures r == NoteReading(text, json)
  {
    var raw := Strip(text);
    if raw == "" {
      return None;
    }
    if LooksLikeJson(raw) && json.Some? {
      return json;
    }
    var lines := NonBlankLines(BreakPieces(raw));
    var pairs := ParseLines(lines);
    r := if pairs == [] then None else Some(pairs);
  }

  /** The loop of `_parse_internal_note` over its lines. */
  method ParseLines(lines: seq<string>) returns (pairs: seq<(string, string)>)
    ensures pairs == NotePairs(lines)
  {
    pairs := [];
    var i := 0;
    while i < |lines|
      invariant 0 <= i <= |lines|
      invariant pairs + NotePairs(lines[i..]) == NotePairs(lines)
    {
      assert lines[i..] == [lines[i]] + lines[i + 1..];
      var p := LinePair(lines[i]);
      if p.Some? {
        pairs := pairs + [p.value];
      }
      i := i + 1;
    }
    assert lines[i..] == [];
  }

  /** A pair the line format can carry: trimmed sides, no `:` in the key, no line boundary anywhere. */
  predicate Writable(p: (string, string))
  {
    IsTrimmed(p.0) && IsTrimmed(p.1) && ':' !in p.0 && NoBreak(p.0) && NoBreak(p.1)
  }

  /** The note line `key:value`. */
  function NoteLine(p: (string, string)): string
  {
    p.0 + ":" + p.1
  }

  /** A note written one `key:value` line per pair. */
  function FormatNote(pairs: seq<(string, string)>): string
  {
    JoinLines(seq(|pairs|, i requires 0 <= i < |pairs| => NoteLine(pairs[i])))
  }

  /** A written line is non-blank, trimmed and a single line. */
  lemma NoteLineShape(p: (string, string))
    requires Writable(p)
    ensures NoteLine(p) != "" && IsTrimmed(NoteLine(p)) && NoBreak(NoteLine(p))
  {
    var line := NoteLine(p);
    assert line[0] == if p.0 == "" then ':' else p.0[0];
    assert line[|line| - 1] == if p.1 == "" then ':' else p.1[|p.1| - 1];
    forall i | 0 <= i < |line| ensures !IsLineBreak(line[i]) {
      if i < |p.0| {
        assert line[i] == p.0[i];
      } else if i > |p.0| {
        assert line[i] == p.1[i - |p.0| - 1];
      }
    }
  }

  /** A written line parses back to its pair. */
  lemma NoteLineParses(p: (string, string))
    requires Writable(p)
    ensures LinePair(NoteLine(p)) == Some(p)
  {
    assert NoteLine(p) == p.0 + [':'] + p.1;
    SplitFirstJoined(p.0, ':', p.1);
    StripTrimmed(p.0);
    StripTrimmed(p.1);
  }

  /** Non-empty trimmed lines join into a trimmed text. */
  lemma {:induction false} JoinTrimmed(lines: seq<string>)
    requires lines != [] && forall i :: 0 <= i < |lines| ==> lines[i] != "" && IsTrimmed(lines[i])
    ensures JoinLines(lines) != "" && IsTrimmed(JoinLines(lines))
  {
    if |lines| > 1 {
      JoinTrimmed(lines[1..]);
      var j := JoinLines(lines[1..]);
      var s := JoinLines(lines);
      assert s == lines[0] + "\n" + j;
      assert s[0] == lines[0][0];
      assert s[|s| - 1] == j[|j| - 1];
    }
  }

  /** The first line boundary is the one with none before it. */
  lemma {:induction false} FirstBreakAt(s: string, k: int)
    requires 0 <= k < |s| && NoBreak(s[..k]) && IsLineBreak(s[k])
    ensures FirstBreak(s) == k
  {
    if k > 0 {
      assert s[..k][0] == s[0];
      var before := s[1..][..k - 1];
      assert NoBreak(before) by {
        forall i | 0 <= i < |before| ensures !IsLineBreak(before[i]) {
          assert before[i] == s[..k][i + 1];
        }
      }
      FirstBreakAt(s[1..], k - 1);
    }
  }

  /** A text splits at its first line boundary. */
  lemma BreakPiecesAt(s: string, k: int)
    requires 0 <= k < |s| && NoBreak(s[..k]) && IsLineBreak(s[k])
    ensures BreakPieces(s) == [s[..k]] + BreakPieces(s[k + 1..])
  {
    FirstBreakAt(s, k);
  }

  /** Splitting the join of single lines at line boundaries gives the lines back. */
  lemma {:induction false} BreakPiecesJoined(lines: seq<string>)
    requires lines != [] && forall i :: 0 <= i < |lines| ==> NoBreak(lines[i])
    ensures BreakPieces(JoinLines(lines)) == lines
  {
    if |lines| == 1 {
      assert JoinLines(lines) == lines[0];
    } else {
      var j := JoinLines(lines[1..]);
      var s := JoinLines(lines);
      var k := |lines[0]|;
      assert s == lines[0] + "\n" + j;
      assert s[..k] == lines[0] && s[k] == '\n' && s[k + 1..] == j;
      BreakPiecesAt(s, k);
      BreakPiecesJoined(lines[1..]);
      assert lines == [lines[0]] + lines[1..];
    }
  }

  /** Non-blank trimmed lines are kept as they are. */
  lemma {:induction false} NonBlankKept(lines: seq<string>)
    requires forall i :: 0 <= i < |lines| ==> lines[i] != "" && IsTrimmed(lines[i])
    ensures NonBlankLines(lines) == lines
  {
    if lines != [] {
      StripTrimmed(lines[0]);
      NonBlankKept(lines[1..]);
      assert lines == [lines[0]] + lines[1..];
    }
  }

  /** Lines that each parse to their pair parse to the pairs, in order. */
  lemma {:induction false} NoteLinesRead(lines: seq<string>, pairs: seq<(string, string)>)
    requires |lines| == |pairs| && forall i :: 0 <= i < |lines| ==> LinePair(lines[i]) == Some(pairs[i])
    ensures NotePairs(lines) == pairs
  {
    if lines != [] {
      NoteLinesRead(lines[1..], pairs[1..]);
      assert pairs == [pairs[0]] + pairs[1..];
    }
  }

  /** The lines a note is written as, one per pair, each of the shape the line parser reads back. */
  lemma NoteLines(pairs: seq<(string, string)>) returns (lines: seq<string>)
    requires forall i :: 0 <= i < |pairs| ==> Writable(pairs[i])
    ensures FormatNote(pairs) == JoinLines(lines) && |lines| == |pairs|
    ensures forall i :: 0 <= i < |lines| ==>
      lines[i] != "" && IsTrimmed(lines[i]) && NoBreak(lines[i]) && LinePair(lines[i]) == Some(pairs[i])
  {
    lines := seq(|pairs|, i requires 0 <= i < |pairs| => NoteLine(pairs[i]));
    forall i | 0 <= i < |lines|
      ensures lines[i] != "" && IsTrimmed(lines[i]) && NoBreak(lines[i]) && LinePair(lines[i]) == Some(pairs[i])
    {
      NoteLineShape(pairs[i]);
      NoteLineParses(pairs[i]);
    }
  }

  /** A note written as `key:value` lines reads back as its pairs. */
  lemma NoteRoundTrip(pairs: seq<(string, string)>)
    requires pairs != [] && forall i :: 0 <= i < |pairs| ==> Writable(pairs[i])
    ensures NoteReading(FormatNote(pairs), None) == Some(pairs)
  {
    var lines := NoteLines(pairs);
    var text := JoinLines(lines);
    assert FormatNote(pairs) == text;
    JoinTrimmed(lines);
    StripTrimmed(text);
    BreakPiecesJoined(lines);
    NonBlankKept(lines);
    NoteLinesRead(lines, pairs);
    assert NotePairs(NonBlankLines(BreakPieces(Strip(text)))) == pairs;
  }
}
