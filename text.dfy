/** Python `str` operations that the converter relies on, over Dafny strings
    (sequences of Unicode scalar values): `str.isspace` (which is also what the
    regular-expression class `\s` matches), `strip`/`lstrip`, `splitlines`,
    `startswith` and `sep.join`. */
module Text {

  /** `str.isspace()`: the characters Python's `\s` and the argument-less
      `strip` treat as whitespace. */
  predicate IsSpace(c: char) {
    var n := c as int;
    (0x09 <= n <= 0x0D) || (0x1C <= n <= 0x20) || n == 0x85 || n == 0xA0 || n == 0x1680
    || (0x2000 <= n <= 0x200A) || n == 0x2028 || n == 0x2029 || n == 0x202F
    || n == 0x205F || n == 0x3000
  }

  /** The line boundaries of `str.splitlines()` (`\r\n` is handled as one boundary
      by SplitLines). */
  predicate IsLineBreak(c: char) {
    var n := c as int;
    (0x0A <= n <= 0x0D) || (0x1C <= n <= 0x1E) || n == 0x85 || n == 0x2028 || n == 0x2029
  }

  lemma LineBreakIsSpace(c: char)
    ensures IsLineBreak(c) ==> IsSpace(c)
  {
  }

  predicate NoBreaks(line: string) {
    forall j :: 0 <= j < |line| ==> !IsLineBreak(line[j])
  }

  predicate StartsWith(s: string, prefix: string) {
    |prefix| <= |s| && s[..|prefix|] == prefix
  }

  predicate EndsWith(s: string, suffix: string) {
    |suffix| <= |s| && s[|s| - |suffix|..] == suffix
  }

  /** The characters a strip removes: `strip()` removes whitespace,
      `strip(chars)` the characters of `chars`. */
  datatype StripSet = Whitespace | Chars(chars: string)

  predicate Strips(set_: StripSet, c: char) {
    match set_
    case Whitespace => IsSpace(c)
    case Chars(chars) => c in chars
  }

  /** `s.lstrip(...)`: drops the longest prefix of characters in `set_`. */
  function TrimLeft(s: string, set_: StripSet): (r: string)
    ensures |r| <= |s|
    ensures r != [] ==> !Strips(set_, r[0])
    decreases |s|
  {
    if s != [] && Strips(set_, s[0]) then TrimLeft(s[1..], set_) else s
  }

  /** `s.rstrip(...)`: drops the longest suffix of characters in `set_`. */
  function TrimRight(s: string, set_: StripSet): (r: string)
    ensures |r| <= |s|
    ensures r != [] ==> !Strips(set_, r[|r| - 1])
    decreases |s|
  {
    if s != [] && Strips(set_, s[|s| - 1]) then TrimRight(s[..|s| - 1], set_) else s
  }

  /** What `lstrip` leaves is a suffix of its input. */
  lemma {:induction false} TrimLeftIsSuffix(s: string, set_: StripSet)
    ensures TrimLeft(s, set_) == s[|s| - |TrimLeft(s, set_)|..]
    decreases |s|
  {
    if s != [] && Strips(set_, s[0]) {
      var t := TrimLeft(s[1..], set_);
      TrimLeftIsSuffix(s[1..], set_);
      assert TrimLeft(s, set_) == t;
      assert s[1..][|s| - 1 - |t|..] == s[|s| - |t|..];
    }
  }

  /** What `rstrip` leaves is a prefix of its input. */
  lemma {:induction false} TrimRightIsPrefix(s: string, set_: StripSet)
    ensures TrimRight(s, set_) == s[..|TrimRight(s, set_)|]
    decreases |s|
  {
    if s != [] && Strips(set_, s[|s| - 1]) {
      var t := TrimRight(s[..|s| - 1], set_);
      TrimRightIsPrefix(s[..|s| - 1], set_);
      assert TrimRight(s, set_) == t;
      assert s[..|s| - 1][..|t|] == s[..|t|];
    }
  }

  /** `s.lstrip()` */
  function LStrip(s: string): (r: string)
    ensures |r| <= |s|
    ensures r != [] ==> !IsSpace(r[0])
  {
    TrimLeft(s, Whitespace)
  }

  /** `s.strip()`: neither starts nor ends with whitespace. */
  function Strip(s: string): (r: string)
    ensures |r| <= |s|
    ensures r != [] ==> !IsSpace(r[0]) && !IsSpace(r[|r| - 1])
  {
    TrimRightIsPrefix(LStrip(s), Whitespace);
    TrimRight(LStrip(s), Whitespace)
  }

  /** Everything `lstrip` cuts off belongs to the stripped set. */
  lemma {:induction false} TrimLeftCutsOnlySet(s: string, set_: StripSet)
    ensures forall i :: 0 <= i < |s| - |TrimLeft(s, set_)| ==> Strips(set_, s[i])
    decreases |s|
  {
    if s != [] && Strips(set_, s[0]) {
      TrimLeftCutsOnlySet(s[1..], set_);
      assert forall i :: 1 <= i < |s| ==> s[i] == s[1..][i - 1];
    }
  }

  /** Everything `rstrip` cuts off belongs to the stripped set. */
  lemma {:induction false} TrimRightCutsOnlySet(s: string, set_: StripSet)
    ensures forall i :: |TrimRight(s, set_)| <= i < |s| ==> Strips(set_, s[i])
    decreases |s|
  {
    if s != [] && Strips(set_, s[|s| - 1]) {
      TrimRightCutsOnlySet(s[..|s| - 1], set_);
      assert forall i :: 0 <= i < |s| - 1 ==> s[i] == s[..|s| - 1][i];
    }
  }

  /** A string Strip leaves alone. */
  predicate IsStripped(s: string) {
    s != [] ==> !IsSpace(s[0]) && !IsSpace(s[|s| - 1])
  }

  /** Strip removes exactly the leading and trailing whitespace: a string that
      has neither is its own strip, and `strip` is idempotent. */
  lemma StripStripped(s: string)
    ensures IsStripped(s) <==> Strip(s) == s
  {
    if IsStripped(s) && s != [] {
      assert LStrip(s) == s;
    }
  }

  /** Index of the first line boundary in `s`, or `|s|` when there is none. */
  function FirstBreak(s: string): (i: nat)
    ensures i <= |s|
    ensures i < |s| ==> IsLineBreak(s[i])
    ensures forall j :: 0 <= j < i ==> !IsLineBreak(s[j])
    decreases |s|
  {
    if s == [] then 0
    else if IsLineBreak(s[0]) then 0
    else 1 + FirstBreak(s[1..])
  }

  /** Width of the boundary at index `i`: `\r\n` counts as one boundary. */
  function BreakWidth(s: string, i: nat): nat
    requires i < |s|
  {
    if s[i] == '\r' && i + 1 < |s| && s[i + 1] == '\n' then 2 else 1
  }

  /** `s.splitlines()`: no trailing empty line for a final boundary, and no
      line at all for the empty string. */
  function SplitLines(s: string): (lines: seq<string>)
    ensures (lines == []) <==> (s == [])
    ensures forall k :: 0 <= k < |lines| ==> NoBreaks(lines[k])
    decreases |s|
  {
    if s == [] then []
    else
      var i := FirstBreak(s);
      if i == |s| then [s]
      else [s[..i]] + SplitLines(s[i + BreakWidth(s, i)..])
  }

  /** `sep.join(parts)` */
  function Join(parts: seq<string>, sep: string): string {
    if parts == [] then ""
    else if |parts| == 1 then parts[0]
    else parts[0] + sep + Join(parts[1..], sep)
  }

  lemma JoinCons(p: string, rest: seq<string>, sep: string)
    requires rest != []
    ensures Join([p] + rest, sep) == p + sep + Join(rest, sep)
  {
    assert ([p] + rest)[1..] == rest;
  }

  /** The first line of a non-empty string is everything before its first
      boundary. */
  lemma SplitLinesHead(s: string)
    requires s != []
    ensures SplitLines(s)[0] == s[..FirstBreak(s)]
  {
  }

  /** A line without boundaries, followed by `\n`, comes back as one line. */
  lemma {:induction false} SplitLinesCons(line: string, rest: string)
    requires NoBreaks(line)
    ensures SplitLines(line + "\n" + rest) == [line] + SplitLines(rest)
  {
    var s := line + "\n" + rest;
    assert s[|line|] == '\n';
    var i := FirstBreak(s);
    forall j | 0 <= j < |line|
      ensures s[j] == line[j]
    {
    }
    assert i == |line|;
    assert BreakWidth(s, i) == 1;
    assert s[..i] == line;
    assert s[i + 1..] == rest;
  }

  /** Joining boundary-free lines with `\n` and splitting again gives the lines
      back, provided the last one is not empty (splitlines drops a trailing
      empty line). */
  lemma {:induction false} SplitJoin(lines: seq<string>)
    requires forall k :: 0 <= k < |lines| ==> NoBreaks(lines[k])
    requires lines != [] ==> lines[|lines| - 1] != []
    ensures SplitLines(Join(lines, "\n")) == lines
  {
    if |lines| == 1 {
      assert FirstBreak(lines[0]) == |lines[0]|;
    } else if |lines| > 1 {
      var rest := lines[1..];
      JoinCons(lines[0], rest, "\n");
      SplitLinesCons(lines[0], Join(rest, "\n"));
      SplitJoin(rest);
      assert [lines[0]] + rest == lines;
    }
  }

  /** Joining boundary-free lines with `\n` and ending with one more `\n` splits
      back into exactly those lines, a final empty one included. */
  lemma {:induction false} SplitJoinTerminated(lines: seq<string>)
    requires lines != []
    requires forall k :: 0 <= k < |lines| ==> NoBreaks(lines[k])
    ensures SplitLines(Join(lines, "\n") + "\n") == lines
  {
    if |lines| == 1 {
      SplitLinesCons(lines[0], "");
      assert lines[0] + "\n" + "" == Join(lines, "\n") + "\n";
    } else {
      SplitJoinTerminatedStep(lines[0], lines[1..]);
      SplitJoinTerminated(lines[1..]);
      assert [lines[0]] + lines[1..] == lines;
    }
  }

  lemma SplitJoinTerminatedStep(line: string, rest: seq<string>)
    requires NoBreaks(line) && rest != []
    ensures SplitLines(Join([line] + rest, "\n") + "\n") == [line] + SplitLines(Join(rest, "\n") + "\n")
  {
    var tail := Join(rest, "\n") + "\n";
    JoinCons(line, rest, "\n");
    SplitLinesCons(line, tail);
    assert line + "\n" + tail == Join([line] + rest, "\n") + "\n";
  }

  /** After the first line, splitlines continues behind the first boundary. */
  lemma SplitLinesTail(s: string)
    requires FirstBreak(s) < |s|
    ensures SplitLines(s)[1..] == SplitLines(s[FirstBreak(s) + BreakWidth(s, FirstBreak(s))..])
  {
  }

  /** Rejoining the lines of `s` with `\n` never makes the text longer. */
  lemma {:induction false} JoinSplitLength(s: string)
    ensures |Join(SplitLines(s), "\n")| <= |s|
    decreases |s|
  {
    if s != [] {
      var i := FirstBreak(s);
      if i < |s| {
        var rest := s[i + BreakWidth(s, i)..];
        JoinSplitLength(rest);
        if rest != [] {
          JoinCons(s[..i], SplitLines(rest), "\n");
        }
      }
    }
  }

  /** Joining ends with the last character of the last part, when that part
      is not empty. */
  lemma {:induction false} JoinLast(parts: seq<string>, sep: string)
    requires parts != [] && parts[|parts| - 1] != []
    ensures |Join(parts, sep)| > 0
    ensures Join(parts, sep)[|Join(parts, sep)| - 1] == parts[|parts| - 1][|parts[|parts| - 1]| - 1]
  {
    if |parts| > 1 {
      JoinLast(parts[1..], sep);
    }
  }

  /** Joining starts with the first character of the first part, when that
      part is not empty. */
  lemma JoinFirst(parts: seq<string>, sep: string)
    requires parts != [] && parts[0] != []
    ensures |Join(parts, sep)| > 0 && Join(parts, sep)[0] == parts[0][0]
  {
  }

  /** When `s` does not end with a boundary, its last line is not empty and
      ends with the last character of `s`. */
  lemma {:induction false} SplitLinesLast(s: string)
    requires s != [] && !IsLineBreak(s[|s| - 1])
    ensures var lines := SplitLines(s);
      lines[|lines| - 1] != [] && lines[|lines| - 1][|lines[|lines| - 1]| - 1] == s[|s| - 1]
    decreases |s|
  {
    var i := FirstBreak(s);
    var lines := SplitLines(s);
    if i < |s| {
      var rest := s[i + BreakWidth(s, i)..];
      assert |rest| > 0 && rest[|rest| - 1] == s[|s| - 1];
      assert lines == [s[..i]] + SplitLines(rest);
      SplitLinesLast(rest);
      assert lines[|lines| - 1] == SplitLines(rest)[|SplitLines(rest)| - 1];
    } else {
      assert lines == [s];
    }
  }

  /** Every line boundary of `s` is a plain `\n`. */
  predicate OnlyNewlines(s: string) {
    forall i :: 0 <= i < |s| && IsLineBreak(s[i]) ==> s[i] == '\n'
  }

  /** Splitting a text whose boundaries are all `\n` and joining its lines with
      `\n` gives the text back, provided it does not end with a boundary
      (splitlines drops a final one). */
  lemma {:induction false} JoinSplitLines(s: string)
    requires OnlyNewlines(s)
    requires s != [] ==> !IsLineBreak(s[|s| - 1])
    ensures Join(SplitLines(s), "\n") == s
    decreases |s|
  {
    if s != [] {
      var i := FirstBreak(s);
      if i < |s| {
        assert s[i] == '\n' && BreakWidth(s, i) == 1;
        var rest := s[i + 1..];
        assert rest != [] && rest[|rest| - 1] == s[|s| - 1];
        forall j | 0 <= j < |rest| && IsLineBreak(rest[j])
          ensures rest[j] == '\n'
        {
          assert rest[j] == s[i + 1 + j];
        }
        JoinSplitLines(rest);
        assert SplitLines(s) == [s[..i]] + SplitLines(rest);
        JoinCons(s[..i], SplitLines(rest), "\n");
        assert s == s[..i] + "\n" + rest;
      } else {
        assert SplitLines(s) == [s];
      }
    }
  }

  /** `lstrip` removes a whole run of stripped characters and stops at the
      first character it keeps. */
  lemma {:induction false} TrimLeftRun(w: string, b: string, set_: StripSet)
    requires forall i :: 0 <= i < |w| ==> Strips(set_, w[i])
    requires b != [] ==> !Strips(set_, b[0])
    ensures TrimLeft(w + b, set_) == b
    decreases |w|
  {
    if w == [] {
      assert w + b == b;
    } else {
      assert (w + b)[1..] == w[1..] + b;
      TrimLeftRun(w[1..], b, set_);
    }
  }
}
