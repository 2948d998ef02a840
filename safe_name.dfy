/** `safe_filename`: turns a conversation title into a file-name fragment by a
    fixed pipeline of regular-expression substitutions, a truncation and a strip. */
module SafeName {
  import opened Text
  import opened Schema

  const DefaultMaxLength: int := 80
  const Untitled := "untitled"

  /** The class `[\r\n\t]` of the first substitution. */
  predicate IsControl(c: char) {
    c == '\r' || c == '\n' || c == '\t'
  }

  /** The class `[#*!`$<>|:?/\\]` of the second substitution. */
  predicate IsHazard(c: char) {
    c in "#*!`$<>|:?/\\"
  }

  /** The ideograph range `一-龥` named in the third substitution. */
  predicate IsCjkIdeograph(c: char) {
    0x4E00 <= c as int <= 0x9FA5
  }

  /** `\w` on a `str`: ASCII letters, digits and `_`, the Latin-1 letters and
      numerals (`ª²³µ¹º¼½¾`, `À`-`ÿ` without `×` and `÷`) and the CJK Unified
      Ideographs block. Python's table of Unicode letters and
      digits is larger; the characters outside this model's table are treated
      as non-word characters. */
  predicate IsWordChar(c: char) {
    var n := c as int;
    ('a' <= c <= 'z') || ('A' <= c <= 'Z') || ('0' <= c <= '9') || c == '_'
    || n == 0xAA || n == 0xB2 || n == 0xB3 || n == 0xB5 || n == 0xB9 || n == 0xBA
    || (0xBC <= n <= 0xBE)
    || (0xC0 <= n <= 0xD6) || (0xD8 <= n <= 0xF6) || (0xF8 <= n <= 0xFF)
    || (0x4E00 <= n <= 0x9FFF)
  }

  /** The complement of the class `[^\w一-龥\- ]`: what the third
      substitution keeps. */
  predicate IsAllowed(c: char) {
    IsWordChar(c) || IsCjkIdeograph(c) || c == '-' || c == ' '
  }

  /** The characters a result of SafeFilename is made of. */
  predicate IsFilenameChar(c: char) {
    IsWordChar(c) || IsCjkIdeograph(c) || c == '-' || c == '_'
  }

  /** The two deleting substitutions: the hazardous characters, and the
      characters outside the allowed class. */
  datatype Deletion = DeleteHazards | DeleteDisallowed

  predicate Deletes(d: Deletion, c: char) {
    match d
    case DeleteHazards => IsHazard(c)
    case DeleteDisallowed => !IsAllowed(c)
  }

  /** `re.sub(r"[\r\n\t]", " ", s)` */
  function ReplaceControls(s: string): (r: string)
    ensures |r| == |s|
    ensures forall i :: 0 <= i < |r| ==> !IsControl(r[i])
    ensures forall i :: 0 <= i < |s| && !IsControl(s[i]) ==> r[i] == s[i]
    ensures forall i :: 0 <= i < |s| && IsControl(s[i]) ==> r[i] == ' '
  {
    seq(|s|, i requires 0 <= i < |s| => if IsControl(s[i]) then ' ' else s[i])
  }

  /** `re.sub(class, "", s)`: deletes every character of the class, keeping
      the others in order. */
  function Delete(s: string, d: Deletion): (r: string)
    ensures |r| <= |s|
    decreases |s|
  {
    if s == [] then []
    else
      var init := Delete(s[..|s| - 1], d);
      assert s == s[..|s| - 1] + [s[|s| - 1]];
      if Deletes(d, s[|s| - 1]) then init else init + [s[|s| - 1]]
  }

  /** Deleting from a string that holds none of the class changes nothing. */
  lemma {:induction false} DeleteNothing(s: string, d: Deletion)
    requires forall i :: 0 <= i < |s| ==> !Deletes(d, s[i])
    ensures Delete(s, d) == s
    decreases |s|
  {
    if s != [] {
      DeleteNothing(s[..|s| - 1], d);
      assert s == s[..|s| - 1] + [s[|s| - 1]];
    }
  }

  lemma {:induction false} DeleteConcat(a: string, b: string, d: Deletion)
    ensures Delete(a + b, d) == Delete(a, d) + Delete(b, d)
    decreases |b|
  {
    if b != [] {
      var b' := b[..|b| - 1];
      assert (a + b)[..|a + b| - 1] == a + b';
      DeleteConcat(a, b', d);
    } else {
      assert a + b == a;
    }
  }

  /** A character is in the result of a deletion exactly when it is in the
      input and not of the deleted class. */
  lemma {:induction false} DeleteKeeps(s: string, d: Deletion)
    ensures forall c :: c in Delete(s, d) <==> c in s && !Deletes(d, c)
    decreases |s|
  {
    if s != [] {
      var init := s[..|s| - 1];
      DeleteKeeps(init, d);
      assert s == init + [s[|s| - 1]];
    }
  }

  /** `re.sub(r"[#*!`$<>|:?/\\]", "", s)` */
  function DropHazards(s: string): string {
    Delete(s, DeleteHazards)
  }

  /** `re.sub(r"[^\w一-龥\- ]", "", s)` */
  function KeepAllowed(s: string): string {
    Delete(s, DeleteDisallowed)
  }

  /** `re.sub(r"\s+", "_", s)`: each maximal run of whitespace becomes one `_`. */
  function CollapseSpaces(s: string): (r: string)
    ensures |r| <= |s|
    decreases |s|
  {
    if s == [] then []
    else if IsSpace(s[0]) then "_" + CollapseSpaces(LStrip(s))
    else [s[0]] + CollapseSpaces(s[1..])
  }

  /** Collapsing brings in no character but `_`, and leaves no whitespace. */
  lemma {:induction false} CollapseSpacesChars(s: string)
    ensures forall c :: c in CollapseSpaces(s) ==> c == '_' || (c in s && !IsSpace(c))
    decreases |s|
  {
    if s != [] {
      if IsSpace(s[0]) {
        var t := LStrip(s);
        TrimLeftIsSuffix(s, Whitespace);
        CollapseSpacesChars(t);
        assert forall c :: c in t ==> c in s;
      } else {
        CollapseSpacesChars(s[1..]);
        assert forall c :: c in s[1..] ==> c in s;
      }
    }
  }

  predicate NoSpaces(s: string) {
    forall i :: 0 <= i < |s| ==> !IsSpace(s[i])
  }

  /** Collapsing whitespace in front of `b` leaves a whitespace-free `a` as it is. */
  lemma {:induction false} CollapseAfterWord(a: string, b: string)
    requires NoSpaces(a)
    ensures CollapseSpaces(a + b) == a + CollapseSpaces(b)
    decreases |a|
  {
    if a != [] {
      var s := a + b;
      assert s[0] == a[0];
      assert s[1..] == a[1..] + b;
      CollapseAfterWord(a[1..], b);
    } else {
      assert a + b == b;
    }
  }

  /** `\s+` → `_`: a maximal run of whitespace after a whitespace-free
      stretch becomes exactly one `_`, and collapsing goes on behind it. */
  lemma CollapseRun(a: string, w: string, b: string)
    requires NoSpaces(a) && w != [] && forall i :: 0 <= i < |w| ==> IsSpace(w[i])
    requires b != [] ==> !IsSpace(b[0])
    ensures CollapseSpaces(a + w + b) == a + "_" + CollapseSpaces(b)
  {
    var t := w + b;
    assert a + w + b == a + t;
    CollapseAfterWord(a, t);
    CollapseLeadingRun(w, b);
  }

  lemma CollapseLeadingRun(w: string, b: string)
    requires w != [] && forall i :: 0 <= i < |w| ==> IsSpace(w[i])
    requires b != [] ==> !IsSpace(b[0])
    ensures CollapseSpaces(w + b) == "_" + CollapseSpaces(b)
  {
    var t := w + b;
    assert t[0] == w[0];
    TrimLeftRun(w, b, Whitespace);
    assert LStrip(t) == b;
  }

  /** A string without whitespace is a fixed point of CollapseSpaces. */
  lemma CollapseNoSpaces(s: string)
    requires NoSpaces(s)
    ensures CollapseSpaces(s) == s
  {
    CollapseAfterWord(s, "");
    assert s + "" == s;
  }

  /** `s[:n]` with Python's slice semantics, a negative `n` counting from the end. */
  function PyPrefix(s: string, n: int): (r: string)
    ensures |r| <= |s| && r == s[..|r|]
    ensures 0 <= n ==> |r| == if n < |s| then n else |s|
    ensures n < 0 ==> |r| == if |s| + n < 0 then 0 else |s| + n
  {
    if 0 <= n then (if n < |s| then s[..n] else s)
    else if |s| + n < 0 then []
    else s[..|s| + n]
  }

  /** `s.strip("_")` */
  function StripUnderscores(s: string): (r: string)
    ensures |r| <= |s|
    ensures r != [] ==> r[0] != '_' && r[|r| - 1] != '_'
    ensures s != [] && s[0] != '_' && s[|s| - 1] != '_' ==> r == s
  {
    TrimRightIsPrefix(TrimLeft(s, Chars("_")), Chars("_"));
    TrimRight(TrimLeft(s, Chars("_")), Chars("_"))
  }

  /** `strip("_")` only removes characters: what it leaves is a slice of its
      input. */
  lemma StripUnderscoresChars(s: string)
    ensures forall c :: c in StripUnderscores(s) ==> c in s
  {
    var t := TrimLeft(s, Chars("_"));
    TrimLeftIsSuffix(s, Chars("_"));
    TrimRightIsPrefix(t, Chars("_"));
    var r := StripUnderscores(s);
    assert forall i :: 0 <= i < |r| ==> r[i] == s[|s| - |t| + i];
  }

  /** The pipeline of `safe_filename` on a non-empty title, before the
      fallback: substitutions, truncation to `maxLength`, `strip("_")`. */
  function Sanitise(title: string, maxLength: int): (r: string)
    ensures r != [] ==> r[0] != '_' && r[|r| - 1] != '_'
    ensures 0 <= maxLength ==> |r| <= maxLength
  {
    var spaced := ReplaceControls(title);
    var safe := DropHazards(spaced);
    var allowed := KeepAllowed(safe);
    var collapsed := CollapseSpaces(allowed);
    StripUnderscores(PyPrefix(collapsed, maxLength))
  }

  /** Whatever the title, the pipeline leaves only word characters,
      ideographs, `-` and `_`. */
  lemma SanitiseChars(title: string, maxLength: int)
    ensures forall c :: c in Sanitise(title, maxLength) ==> IsFilenameChar(c)
  {
    var safe := DropHazards(ReplaceControls(title));
    DeleteKeeps(safe, DeleteDisallowed);
    var collapsed := CollapseSpaces(KeepAllowed(safe));
    CollapsedChars(KeepAllowed(safe));
    var prefix := PyPrefix(collapsed, maxLength);
    assert forall c :: c in prefix ==> c in collapsed;
    StripUnderscoresChars(prefix);
  }

  /** Once only allowed characters remain, collapsing whitespace leaves only
      file-name characters. */
  lemma CollapsedChars(s: string)
    requires forall c :: c in s ==> IsAllowed(c)
    ensures forall c :: c in CollapseSpaces(s) ==> IsFilenameChar(c)
  {
    CollapseSpacesChars(s);
    forall c | c in CollapseSpaces(s)
      ensures IsFilenameChar(c)
    {
      if c != '_' {
        AllowedCharIsFilenameChar(c);
      }
    }
  }

  lemma AllowedCharIsFilenameChar(c: char)
    requires IsAllowed(c) && !IsSpace(c)
    ensures IsFilenameChar(c)
  {
  }

  /** `safe_filename(text, max_length)`: never empty, "untitled" for a missing
      or empty title, neither starting nor ending with `_`, and no longer than
      `maxLength` unless it is the fallback "untitled". */
  function SafeFilename(text: Option<string>, maxLength: int): (r: string)
    ensures r != []
    ensures text == None || text == Some("") ==> r == Untitled
    ensures r[0] != '_' && r[|r| - 1] != '_'
    ensures 0 <= maxLength ==> r == Untitled || |r| <= maxLength
  {
    if text.None? || text.value == "" then Untitled
    else
      var name := Sanitise(text.value, maxLength);
      if name == [] then Untitled else name
  }

  /** A result of SafeFilename is made only of word characters, ideographs,
      `-` and `_`. */
  lemma SafeFilenameChars(text: Option<string>, maxLength: int)
    ensures forall c :: c in SafeFilename(text, maxLength) ==> IsFilenameChar(c)
  {
    var r := SafeFilename(text, maxLength);
    if text.Some? {
      SanitiseChars(text.value, maxLength);
    }
    if r == Untitled {
      forall c | c in Untitled
        ensures IsFilenameChar(c)
      {
        assert 'a' <= c <= 'z';
      }
    }
  }

  /** Every character of a result of SafeFilename survives the pipeline
      unchanged; in particular it is neither hazardous nor whitespace. */
  lemma FilenameCharPassesThrough(c: char)
    requires IsFilenameChar(c)
    ensures !IsControl(c) && !IsHazard(c) && IsAllowed(c) && !IsSpace(c)
  {
  }

  /** No result of SafeFilename holds any of `#*!`$<>|:?/\` or any
      whitespace. */
  lemma SafeFilenameIsSafe(text: Option<string>, maxLength: int)
    ensures forall i :: 0 <= i < |SafeFilename(text, maxLength)| ==>
              !IsHazard(SafeFilename(text, maxLength)[i]) && !IsSpace(SafeFilename(text, maxLength)[i])
  {
    var r := SafeFilename(text, maxLength);
    SafeFilenameChars(text, maxLength);
    forall i | 0 <= i < |r|
      ensures !IsHazard(r[i]) && !IsSpace(r[i])
    {
      assert r[i] in r;
      FilenameCharPassesThrough(r[i]);
    }
  }

  /** What SafeFilename produces under a limit that leaves room for
      "untitled": a non-empty name of file-name characters, within the limit,
      with no `_` at either end. */
  predicate IsSafeName(s: string, maxLength: int) {
    && s != [] && s[0] != '_' && s[|s| - 1] != '_' && |s| <= maxLength
    && forall i :: 0 <= i < |s| ==> IsFilenameChar(s[i])
  }

  /** Every result of SafeFilename is a safe name. */
  lemma SafeFilenameShape(text: Option<string>, maxLength: int)
    requires |Untitled| <= maxLength
    ensures IsSafeName(SafeFilename(text, maxLength), maxLength)
  {
    var s := SafeFilename(text, maxLength);
    SafeFilenameChars(text, maxLength);
    forall i | 0 <= i < |s|
      ensures IsFilenameChar(s[i])
    {
      assert s[i] in s;
    }
  }

  /** The names SafeFilename leaves unchanged are exactly the safe names. */
  lemma SafeFilenameFixedPoint(s: string, maxLength: int)
    requires |Untitled| <= maxLength
    ensures SafeFilename(Some(s), maxLength) == s <==> IsSafeName(s, maxLength)
  {
    if IsSafeName(s, maxLength) {
      SanitiseFixedPoint(s, maxLength);
    } else if SafeFilename(Some(s), maxLength) == s {
      SafeFilenameShape(Some(s), maxLength);
      assert false;
    }
  }

  /** Sanitising a sanitised name changes nothing, as long as the limit leaves
      room for the fallback "untitled". */
  lemma SafeFilenameIdempotent(text: Option<string>, maxLength: int)
    requires |Untitled| <= maxLength
    ensures SafeFilename(Some(SafeFilename(text, maxLength)), maxLength) == SafeFilename(text, maxLength)
  {
    SafeFilenameShape(text, maxLength);
    SafeFilenameFixedPoint(SafeFilename(text, maxLength), maxLength);
  }

  /** Below a limit of eight characters idempotence fails: "untitled" is
      itself cut, so the fallback of one call is shortened by the next. */
  lemma ShortLimitExample()
    ensures SafeFilename(None, 3) == Untitled
    ensures SafeFilename(Some(Untitled), 3) == "unt"
  {
    var s := Untitled;
    assert forall i :: 0 <= i < |s| ==> IsFilenameChar(s[i]);
    SanitiseTruncates(s, 3);
    assert PyPrefix(s, 3) == "unt";
  }

  /** On a title made only of file-name characters, the substitutions change
      nothing and only the truncation and `strip("_")` remain. */
  lemma SanitiseTruncates(s: string, maxLength: int)
    requires forall i :: 0 <= i < |s| ==> IsFilenameChar(s[i])
    ensures Sanitise(s, maxLength) == StripUnderscores(PyPrefix(s, maxLength))
  {
    forall i | 0 <= i < |s|
      ensures !IsControl(s[i]) && !IsHazard(s[i]) && IsAllowed(s[i]) && !IsSpace(s[i])
    {
      FilenameCharPassesThrough(s[i]);
    }
    assert ReplaceControls(s) == s;
    DeleteNothing(s, DeleteHazards);
    DeleteNothing(s, DeleteDisallowed);
    CollapseNoSpaces(s);
  }

  /** A name of file-name characters that fits the limit and has no `_` at
      either end goes through the pipeline unchanged. */
  lemma SanitiseFixedPoint(s: string, maxLength: int)
    requires s != [] && s[0] != '_' && s[|s| - 1] != '_' && |s| <= maxLength
    requires forall i :: 0 <= i < |s| ==> IsFilenameChar(s[i])
    ensures SafeFilename(Some(s), maxLength) == s
  {
    forall i | 0 <= i < |s|
      ensures !IsControl(s[i]) && !IsHazard(s[i]) && IsAllowed(s[i]) && !IsSpace(s[i])
    {
      FilenameCharPassesThrough(s[i]);
    }
    assert ReplaceControls(s) == s;
    DeleteNothing(s, DeleteHazards);
    DeleteNothing(s, DeleteDisallowed);
    CollapseNoSpaces(s);
    assert PyPrefix(s, maxLength) == s;
    assert Sanitise(s, maxLength) == s;
  }

  lemma HelloWorldPieces()
    ensures Delete("Hello", DeleteHazards) == "Hello"
    ensures Delete(" World", DeleteHazards) == " World"
    ensures Delete(":", DeleteHazards) == [] && Delete("?", DeleteHazards) == []
  {
    DeleteNothing("Hello", DeleteHazards);
    DeleteNothing(" World", DeleteHazards);
  }

  lemma HelloWorldDropsPunctuation()
    ensures DropHazards("Hello: World?") == "Hello World"
  {
    var a, b := "Hello" + ":", "Hello" + ":" + " World";
    assert "Hello: World?" == b + "?";
    DeleteConcat(b, "?", DeleteHazards);
    DeleteConcat(a, " World", DeleteHazards);
    DeleteConcat("Hello", ":", DeleteHazards);
    HelloWorldPieces();
  }

  /** Whitespace between two words becomes one `_`. */
  lemma CollapseOneSpace(a: string, b: string)
    requires NoSpaces(a) && NoSpaces(b)
    ensures CollapseSpaces(a + " " + b) == a + "_" + b
  {
    var t := " " + b;
    assert t[1..] == b;
    assert TrimLeft(b, Whitespace) == b;
    assert LStrip(t) == b;
    CollapseNoSpaces(b);
    assert a + " " + b == a + t;
    CollapseAfterWord(a, t);
  }

  lemma HelloWorldCollapses()
    ensures CollapseSpaces("Hello World") == "Hello_World"
  {
    var a, b := "Hello", "World";
    assert NoSpaces(a) && NoSpaces(b);
    CollapseOneSpace(a, b);
    assert a + " " + b == "Hello World";
    assert a + "_" + b == "Hello_World";
  }

  /** `safe_filename("Hello: World?") == "Hello_World"` */
  lemma HelloWorldExample()
    ensures SafeFilename(Some("Hello: World?"), DefaultMaxLength) == "Hello_World"
  {
    HelloWorldSanitise();
  }

  lemma HelloWorldSanitise()
    ensures Sanitise("Hello: World?", DefaultMaxLength) == "Hello_World"
  {
    var s := "Hello: World?";
    assert ReplaceControls(s) == s;
    HelloWorldDropsPunctuation();
    HelloWorldAllowed();
    HelloWorldCollapses();
    HelloWorldTrims();
  }

  lemma HelloWorldAllowed()
    ensures KeepAllowed("Hello World") == "Hello World"
  {
    DeleteNothing("Hello World", DeleteDisallowed);
  }

  lemma HelloWorldTrims()
    ensures StripUnderscores(PyPrefix("Hello_World", DefaultMaxLength)) == "Hello_World"
  {
    var collapsed := "Hello_World";
    assert PyPrefix(collapsed, DefaultMaxLength) == collapsed;
    assert StripUnderscores(collapsed) == collapsed;
  }

  /** `safe_filename("Test?") == "Test"`: the `?` is dropped. */
  lemma TestQuestionExample()
    ensures SafeFilename(Some("Test?"), DefaultMaxLength) == "Test"
  {
    TestQuestionSanitise();
  }

  lemma TestQuestionSanitise()
    ensures Sanitise("Test?", DefaultMaxLength) == "Test"
  {
    var s, w := "Test?", "Test";
    assert ReplaceControls(s) == s;
    TestQuestionDrops();
    TestKept();
    assert PyPrefix(w, DefaultMaxLength) == w;
    assert StripUnderscores(w) == w;
  }

  lemma TestKept()
    ensures CollapseSpaces(KeepAllowed("Test")) == "Test"
  {
    var w := "Test";
    assert forall i :: 0 <= i < |w| ==> 'A' <= w[i] <= 'z' && IsAllowed(w[i]) && !IsSpace(w[i]);
    DeleteNothing(w, DeleteDisallowed);
    CollapseNoSpaces(w);
  }

  lemma TestQuestionDrops()
    ensures DropHazards("Test?") == "Test"
  {
    var w := "Test";
    assert "Test?" == w + "?";
    DeleteConcat(w, "?", DeleteHazards);
    DeleteNothing(w, DeleteHazards);
    assert Delete("?", DeleteHazards) == [];
  }

  /** A title made only of hazardous punctuation sanitises to the fallback. */
  lemma OnlyPunctuationExample()
    ensures SafeFilename(Some("?:*"), DefaultMaxLength) == Untitled
  {
    var s := "?:*";
    assert ReplaceControls(s) == s;
    assert s == "?" + ":" + "*";
    DeleteConcat("?" + ":", "*", DeleteHazards);
    DeleteConcat("?", ":", DeleteHazards);
    assert Delete("?", DeleteHazards) == [] && Delete(":", DeleteHazards) == [] && Delete("*", DeleteHazards) == [];
    assert DropHazards(s) == [];
    assert KeepAllowed([]) == [];
    assert CollapseSpaces([]) == [];
    assert Sanitise(s, DefaultMaxLength) == [];
  }
}
