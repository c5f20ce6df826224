/** The string operations of Rust's `str` that the tool relies on, over
    `seq<char>`: `trim`, `starts_with`, `contains`, `lines`, `join("\n")`,
    `split('=')`, `trim_matches`, `trim_start_matches` and
    `eq_ignore_ascii_case`. */
module Text {

  import opened Common

  /** `char::is_whitespace`: the Unicode White_Space property. */
  predicate IsWhitespace(c: char) {
    ('\t' <= c <= '\r') || c == ' ' || c == '\U{85}' || c == '\U{A0}' || c == '\U{1680}'
    || ('\U{2000}' <= c <= '\U{200A}') || c == '\U{2028}' || c == '\U{2029}'
    || c == '\U{202F}' || c == '\U{205F}' || c == '\U{3000}'
  }

  /** The first index at or after `i` whose character is not whitespace,
      or `|s|`. */
  function SkipWhitespace(s: string, i: nat): (r: nat)
    requires i <= |s|
    ensures i <= r <= |s|
    decreases |s| - i
  {
    if i == |s| || !IsWhitespace(s[i]) then i else SkipWhitespace(s, i + 1)
  }

  /** The end of `s[..j]` once its trailing whitespace is dropped. */
  function SkipWhitespaceBack(s: string, j: nat): (r: nat)
    requires j <= |s|
    ensures r <= j
  {
    if j == 0 || !IsWhitespace(s[j - 1]) then j else SkipWhitespaceBack(s, j - 1)
  }

  /** `trim_start`: drops the leading whitespace, keeps the rest. */
  function TrimStart(s: string): string {
    s[SkipWhitespace(s, 0)..]
  }

  /** `trim_end`: drops the trailing whitespace, keeps the rest. */
  function TrimEnd(s: string): string {
    s[..SkipWhitespaceBack(s, |s|)]
  }

  /** `trim`: both of the above. */
  function Trim(s: string): string {
    TrimEnd(TrimStart(s))
  }

  lemma {:induction false} SkipWhitespaceFacts(s: string, i: nat)
    requires i <= |s|
    ensures var r := SkipWhitespace(s, i);
            && (forall k :: i <= k < r ==> IsWhitespace(s[k]))
            && (r < |s| ==> !IsWhitespace(s[r]))
    decreases |s| - i
  {
    if i < |s| && IsWhitespace(s[i]) {
      SkipWhitespaceFacts(s, i + 1);
    }
  }

  lemma {:induction false} SkipWhitespaceBackFacts(s: string, j: nat)
    requires j <= |s|
    ensures var r := SkipWhitespaceBack(s, j);
            && (forall k :: r <= k < j ==> IsWhitespace(s[k]))
            && (r > 0 ==> !IsWhitespace(s[r - 1]))
  {
    if j > 0 && IsWhitespace(s[j - 1]) {
      SkipWhitespaceBackFacts(s, j - 1);
    }
  }

  /** `trim_start` removes exactly the whitespace before the first other
      character. */
  lemma TrimStartFacts(s: string)
    ensures var r := TrimStart(s);
            && |r| <= |s| && r == s[|s| - |r|..]
            && (forall i :: 0 <= i < |s| - |r| ==> IsWhitespace(s[i]))
            && (r == [] || !IsWhitespace(r[0]))
  {
    SkipWhitespaceFacts(s, 0);
  }

  /** `trim_end` removes exactly the whitespace after the last other
      character. */
  lemma TrimEndFacts(s: string)
    ensures var r := TrimEnd(s);
            && |r| <= |s| && r == s[..|r|]
            && (forall i :: |r| <= i < |s| ==> IsWhitespace(s[i]))
            && (r == [] || !IsWhitespace(r[|r| - 1]))
  {
    SkipWhitespaceBackFacts(s, |s|);
  }

  /** `trim` yields the slice of `s` that lies between its leading and its
      trailing whitespace, and that slice has no whitespace at either end. */
  lemma TrimFacts(s: string)
    ensures var a, r := |s| - |TrimStart(s)|, Trim(s);
            && 0 <= a && a + |r| <= |s| && r == s[a..a + |r|]
            && (r == [] || (!IsWhitespace(r[0]) && !IsWhitespace(r[|r| - 1])))
            && (forall i :: 0 <= i < a ==> IsWhitespace(s[i]))
            && (forall i :: a + |r| <= i < |s| ==> IsWhitespace(s[i]))
  {
    var t := TrimStart(s);
    TrimStartFacts(s);
    TrimEndFacts(t);
    var a := |s| - |t|;
    assert t == s[a..];
    assert forall i :: a <= i < |s| ==> t[i - a] == s[i];
  }

  predicate StartsWith(s: string, prefix: string) {
    |prefix| <= |s| && s[..|prefix|] == prefix
  }

  predicate EndsWith(s: string, suffix: string) {
    |suffix| <= |s| && s[|s| - |suffix|..] == suffix
  }

  /** `str::contains` with a string pattern: a substring test. */
  predicate Contains(s: string, pattern: string) {
    exists i: nat | i <= |s| :: OccursAt(s, pattern, i)
  }

  /** `pattern` occurs in `s` starting at index `i`. */
  predicate OccursAt(s: string, pattern: string, i: nat) {
    i + |pattern| <= |s| && s[i..i + |pattern|] == pattern
  }

  /** A substring of a slice is a substring of the whole. */
  lemma ContainsInSlice(s: string, lo: nat, hi: nat, pattern: string)
    requires lo <= hi <= |s|
    requires Contains(s[lo..hi], pattern)
    ensures Contains(s, pattern)
  {
    var t := s[lo..hi];
    var i: nat :| i <= |t| && OccursAt(t, pattern, i);
    var u, v := s[lo + i..lo + i + |pattern|], t[i..i + |pattern|];
    assert forall j :: 0 <= j < |pattern| ==> u[j] == v[j];
    assert u == v;
    assert OccursAt(s, pattern, lo + i);
  }

  /** The index of the first `c` in `s`, or `|s|` when there is none. */
  function IndexOf(s: string, c: char): (r: nat)
    ensures r <= |s|
  {
    IndexFrom(s, c, 0)
  }

  /** The index of the first `c` at or after `i`, or `|s|`. */
  function IndexFrom(s: string, c: char, i: nat): (r: nat)
    requires i <= |s|
    ensures i <= r <= |s|
    decreases |s| - i
  {
    if i == |s| || s[i] == c then i else IndexFrom(s, c, i + 1)
  }

  lemma {:induction false} IndexFromFacts(s: string, c: char, i: nat)
    requires i <= |s|
    ensures var r := IndexFrom(s, c, i);
            && (forall k :: i <= k < r ==> s[k] != c)
            && (r < |s| ==> s[r] == c)
    decreases |s| - i
  {
    if i < |s| && s[i] != c {
      IndexFromFacts(s, c, i + 1);
    }
  }

  /** `IndexOf` finds the first `c`: none before it, and a `c` at it unless
      it is the end. */
  lemma IndexOfFacts(s: string, c: char)
    ensures var r := IndexOf(s, c);
            && (forall i :: 0 <= i < r ==> s[i] != c)
            && (r < |s| ==> s[r] == c)
  {
    IndexFromFacts(s, c, 0);
  }

  /** `split(c).next()`: the text before the first `c`, or all of `s`. */
  function BeforeFirst(s: string, c: char): (r: string) {
    s[..IndexOf(s, c)]
  }

  /** The first segment has no `c`, begins `s`, and is followed by a `c`
      unless it is all of `s`. */
  lemma BeforeFirstFacts(s: string, c: char)
    ensures var r := BeforeFirst(s, c);
            && c !in r
            && StartsWith(s, r)
            && (|r| < |s| ==> s[|r|] == c)
  {
    IndexOfFacts(s, c);
  }

  /** `split(c).nth(1)`: the segment between the first and the second `c`
      (or the end of `s`); `None` when `s` has no `c`. */
  function SecondSegment(s: string, c: char): (r: Option<string>)
    ensures r.None? <==> c !in s
    ensures r.Some? ==> c !in r.value
    ensures r.Some? ==> IndexOf(s, c) + 1 + |r.value| <= |s|
    ensures r.Some? ==> s[..IndexOf(s, c) + 1 + |r.value|] == s[..IndexOf(s, c)] + [c] + r.value
    ensures r.Some? && IndexOf(s, c) + 1 + |r.value| < |s| ==> s[IndexOf(s, c) + 1 + |r.value|] == c
  {
    var i := IndexOf(s, c);
    IndexOfFacts(s, c);
    if i == |s| then None
    else
      var v := BeforeFirst(s[i + 1..], c);
      BeforeFirstFacts(s[i + 1..], c);
      assert s[..i + 1 + |v|] == s[..i] + [c] + v;
      Some(v)
  }

  /** One line of `lines()`: a single `\r` before the `\n` is dropped. */
  function StripCarriageReturn(line: string): (r: string)
    ensures StartsWith(line, r) && |line| - 1 <= |r|
  {
    if line != [] && line[|line| - 1] == '\r' then line[..|line| - 1] else line
  }

  /** `str::lines()`: the pieces between `\n` terminators, each without its
      `\n` and without a `\r` just before it; a final piece with no `\n`
      keeps any `\r`; a final `\n` does not open an empty line. */
  function Lines(s: string): (r: seq<string>)
    ensures |s| == 0 <==> |r| == 0
  {
    LinesFrom(s, 0)
  }

  /** The lines of `s[i..]`. */
  function LinesFrom(s: string, i: nat): (r: seq<string>)
    requires i <= |s|
    ensures i == |s| <==> |r| == 0
    decreases |s| - i
  {
    if i == |s| then []
    else
      var j := IndexFrom(s, '\n', i);
      if j == |s| then [s[i..]]
      else [StripCarriageReturn(s[i..j])] + LinesFrom(s, j + 1)
  }

  /** Every line of `lines()` is a slice of its input, so a substring of a
      line is a substring of the input. */
  lemma LineContains(s: string, k: nat, pattern: string)
    requires k < |Lines(s)|
    requires Contains(Lines(s)[k], pattern)
    ensures Contains(s, pattern)
  {
    var line := Lines(s)[k];
    var lo := LinesFromAreSlices(s, 0, k);
    ContainsInSlice(s, lo, lo + |line|, pattern);
  }

  /** Line `k` of `s[i..]` is the slice of `s` that starts at `lo`. */
  lemma {:induction false} LinesFromAreSlices(s: string, i: nat, k: nat) returns (lo: nat)
    requires i <= |s| && k < |LinesFrom(s, i)|
    ensures var line := LinesFrom(s, i)[k];
            lo + |line| <= |s| && s[lo..lo + |line|] == line
    decreases |s| - i
  {
    var j := IndexFrom(s, '\n', i);
    if j == |s| {
      lo := i;
      assert LinesFrom(s, i) == [s[i..]];
    } else if k == 0 {
      lo := i;
      var line := StripCarriageReturn(s[i..j]);
      assert LinesFrom(s, i)[0] == line;
      assert s[i..i + |line|] == s[i..j][..|line|];
    } else {
      assert LinesFrom(s, i)[k] == LinesFrom(s, j + 1)[k - 1];
      lo := LinesFromAreSlices(s, j + 1, k - 1);
    }
  }

  /** `lines.join("\n")`. */
  function Join(lines: seq<string>): (r: string)
    decreases |lines|
  {
    if |lines| == 0 then ""
    else if |lines| == 1 then lines[0]
    else lines[0] + "\n" + Join(lines[1..])
  }

  /** `s[i..]` is the part before index `j`, the character at `j` and the
      part after it. */
  lemma SplitAround<T>(s: seq<T>, i: nat, j: nat)
    requires i <= j < |s|
    ensures s[i..] == s[i..j] + [s[j]] + s[j + 1..]
  {
  }

  /** Joining one line in front of a non-empty list puts a `\n` between. */
  lemma JoinCons(head: string, tail: seq<string>)
    requires tail != []
    ensures Join([head] + tail) == head + "\n" + Join(tail)
  {
    assert ([head] + tail)[1..] == tail;
  }

  /** Splitting with `lines()` and joining with `\n` gives the text back when
      it has no `\r` and does not end with a newline. */
  lemma JoinLinesRoundTrip(s: string)
    requires '\r' !in s
    requires s == [] || s[|s| - 1] != '\n'
    ensures Join(Lines(s)) == s
  {
    JoinLinesFromRoundTrip(s, 0);
  }

  lemma {:induction false} JoinLinesFromRoundTrip(s: string, i: nat)
    requires i <= |s|
    requires '\r' !in s
    requires s == [] || s[|s| - 1] != '\n'
    ensures Join(LinesFrom(s, i)) == s[i..]
    decreases |s| - i
  {
    if i < |s| {
      var j := IndexFrom(s, '\n', i);
      IndexFromFacts(s, '\n', i);
      if j < |s| {
        var head, tail := s[i..j], LinesFrom(s, j + 1);
        NoCarriageReturnToStrip(s, i, j);
        assert j + 1 < |s|;
        assert LinesFrom(s, i) == [head] + tail;
        JoinLinesFromRoundTrip(s, j + 1);
        JoinCons(head, tail);
        SplitAround(s, i, j);
      } else {
        assert LinesFrom(s, i) == [s[i..]];
      }
    }
  }

  lemma NoCarriageReturnToStrip(s: string, i: nat, j: nat)
    requires i <= j <= |s| && '\r' !in s
    ensures StripCarriageReturn(s[i..j]) == s[i..j]
  {
    if i < j {
      assert s[i..j][j - i - 1] == s[j - 1] && s[j - 1] in s;
    }
  }

  /** Splitting and joining never lengthens a text, and strictly shortens one
      that ends with a newline: the last `\n` is lost. */
  lemma JoinLinesLength(s: string)
    ensures |Join(Lines(s))| <= |s|
    ensures s != [] && s[|s| - 1] == '\n' ==> |Join(Lines(s))| < |s|
  {
    JoinLinesFromLength(s, 0);
  }

  lemma {:induction false} JoinLinesFromLength(s: string, i: nat)
    requires i <= |s|
    ensures |Join(LinesFrom(s, i))| <= |s| - i
    ensures i < |s| && s[|s| - 1] == '\n' ==> |Join(LinesFrom(s, i))| < |s| - i
    decreases |s| - i
  {
    if i < |s| {
      var j := IndexFrom(s, '\n', i);
      IndexFromFacts(s, '\n', i);
      if j < |s| {
        var head := StripCarriageReturn(s[i..j]);
        JoinLinesFromLength(s, j + 1);
        if j + 1 < |s| {
          JoinCons(head, LinesFrom(s, j + 1));
        }
      }
    }
  }

  /** `lines()` drops the `\r` of every `\r\n` terminator and the join puts
      back only the `\n`: a text holding a `\r\n` comes back strictly
      shorter, with its CRLF terminators turned into LF. */
  lemma CrlfDropped(s: string)
    requires exists k :: 0 <= k && k + 1 < |s| && s[k] == '\r' && s[k + 1] == '\n'
    ensures |Join(Lines(s))| < |s|
  {
    var k :| 0 <= k && k + 1 < |s| && s[k] == '\r' && s[k + 1] == '\n';
    JoinLinesFromCrlf(s, 0, k);
  }

  lemma {:induction false} JoinLinesFromCrlf(s: string, i: nat, k: nat)
    requires i <= k && k + 1 < |s| && s[k] == '\r' && s[k + 1] == '\n'
    ensures |Join(LinesFrom(s, i))| < |s| - i
    decreases |s| - i
  {
    var j := IndexFrom(s, '\n', i);
    IndexFromFacts(s, '\n', i);
    assert j <= k + 1;
    var head := StripCarriageReturn(s[i..j]);
    var rest := LinesFrom(s, j + 1);
    assert LinesFrom(s, i) == [head] + rest;
    JoinLinesFromLength(s, j + 1);
    if j == k + 1 {
      assert s[i..j][j - i - 1] == '\r';
      assert |head| < j - i;
    } else {
      JoinLinesFromCrlf(s, j + 1, k);
    }
    if rest != [] {
      JoinCons(head, rest);
      assert |Join(LinesFrom(s, i))| == |head| + 1 + |Join(rest)|;
    } else {
      assert Join(LinesFrom(s, i)) == head;
    }
  }

  /** `trim_start_matches(c)` for a single character. */
  function TrimStartChar(s: string, c: char): (r: string)
    ensures |r| <= |s| && r == s[|s| - |r|..]
    ensures forall i :: 0 <= i < |s| - |r| ==> s[i] == c
    ensures r == [] || r[0] != c
    decreases |s|
  {
    if s != [] && s[0] == c then TrimStartChar(s[1..], c) else s
  }

  /** `trim_end_matches(c)` for a single character. */
  function TrimEndChar(s: string, c: char): (r: string)
    ensures |r| <= |s| && r == s[..|r|]
    ensures forall i :: |r| <= i < |s| ==> s[i] == c
    ensures r == [] || r[|r| - 1] != c
    decreases |s|
  {
    if s != [] && s[|s| - 1] == c then TrimEndChar(s[..|s| - 1], c) else s
  }

  /** `trim_matches(c)`: every leading and trailing `c` removed. */
  function TrimMatches(s: string, c: char): (r: string)
    ensures r == [] || (r[0] != c && r[|r| - 1] != c)
  {
    TrimEndChar(TrimStartChar(s, c), c)
  }

  /** `trim_matches(c)` keeps a middle slice `s[a..a + |r|]` and removes
      only copies of `c` around it. */
  lemma TrimMatchesSlice(s: string, c: char) returns (a: nat)
    ensures var r := TrimMatches(s, c);
            && a + |r| <= |s| && r == s[a..a + |r|]
            && (forall i :: 0 <= i < a ==> s[i] == c)
            && (forall i :: a + |r| <= i < |s| ==> s[i] == c)
  {
    var t := TrimStartChar(s, c);
    a := |s| - |t|;
    var r := TrimEndChar(t, c);
    assert t == s[a..] && r == t[..|r|];
    assert s[a..a + |r|] == r;
    forall i | a + |r| <= i < |s|
      ensures s[i] == c
    {
      assert s[i] == t[i - a];
    }
  }

  /** `p` repeated `k` times. */
  function Repeat(p: string, k: nat): string {
    if k == 0 then "" else p + Repeat(p, k - 1)
  }

  /** `trim_start_matches(p)` for a string pattern: every leading repetition
      of `p` removed (an empty pattern removes nothing). */
  function TrimStartMatches(s: string, p: string): (r: string)
    ensures |r| <= |s| && r == s[|s| - |r|..]
    ensures |p| > 0 ==> !StartsWith(r, p)
    decreases |s|
  {
    if |p| > 0 && StartsWith(s, p) then TrimStartMatches(s[|p|..], p) else s
  }

  /** What `trim_start_matches` removed is a whole number `k` of copies of
      `p`. */
  lemma {:induction false} TrimStartMatchesRepeat(s: string, p: string) returns (k: nat)
    ensures s == Repeat(p, k) + TrimStartMatches(s, p)
    decreases |s|
  {
    var r := TrimStartMatches(s, p);
    if |p| > 0 && StartsWith(s, p) {
      var k' := TrimStartMatchesRepeat(s[|p|..], p);
      k := k' + 1;
      assert r == TrimStartMatches(s[|p|..], p);
      calc {
        s;
        p + s[|p|..];
        p + (Repeat(p, k') + r);
        (p + Repeat(p, k')) + r;
      }
    } else {
      k := 0;
      assert s == "" + r;
    }
  }

  /** `u8::to_ascii_lowercase` on a character. */
  function AsciiLower(c: char): char {
    if 'A' <= c <= 'Z' then (c as int + 32) as char else c
  }

  /** `str::eq_ignore_ascii_case`. */
  predicate EqIgnoreAsciiCase(a: string, b: string) {
    |a| == |b| && forall i :: 0 <= i < |a| ==> AsciiLower(a[i]) == AsciiLower(b[i])
  }

  /** The decimal text of an integer, as `format!("{}")` writes it. */
  function IntToString(n: int): (r: string)
    ensures r != []
  {
    if n < 0 then "-" + NatToString(-n) else NatToString(n)
  }

  function NatToString(n: nat): (r: string)
    ensures r != []
    ensures forall i :: 0 <= i < |r| ==> '0' <= r[i] <= '9'
  {
    var d := ['0' + (n % 10) as char];
    if n < 10 then d else NatToString(n / 10) + d
  }
}
