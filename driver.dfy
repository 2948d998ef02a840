/** The pure part of `main`: the name of each conversation's Markdown file,
    the lines of `index.md`, and the loop that produces both. Reading the JSON
    file, writing files and printing progress are outside this model. */
module Driver {
  import opened Text
  import opened Schema
  import opened SafeName
  import opened Render

  const IndexHeading := "# 导出会话索引\n"
  const IndexTitle := "# 导出会话索引"
  const FallbackPrefix := "conversation_"
  const Extension := ".md"

  predicate IsDigit(c: char) {
    '0' <= c <= '9'
  }

  predicate AllDigits(s: string) {
    forall i :: 0 <= i < |s| ==> IsDigit(s[i])
  }

  function DigitChar(d: nat): (c: char)
    requires d < 10
    ensures IsDigit(c)
  {
    ('0' as int + d) as char
  }

  /** The decimal digits of `n`, most significant first, no leading zero. */
  function Digits(n: nat): (r: string)
    ensures r != [] && AllDigits(r)
    ensures n >= 10 ==> r[0] != '0'
    decreases n
  {
    if n < 10 then [DigitChar(n)] else Digits(n / 10) + [DigitChar(n % 10)]
  }

  /** `f"{prefix}{n}"`, built digit by digit from the last one. */
  function Interpolate(prefix: string, n: nat): string
    decreases n
  {
    if n < 10 then prefix + [DigitChar(n)] else Interpolate(prefix, n / 10) + [DigitChar(n % 10)]
  }

  /** Interpolating `n` appends its decimal digits. */
  lemma {:induction false} InterpolateDigits(prefix: string, n: nat)
    ensures Interpolate(prefix, n) == prefix + Digits(n)
    decreases n
  {
    if n >= 10 {
      InterpolateDigits(prefix, n / 10);
      assert prefix + Digits(n / 10) + [DigitChar(n % 10)] == prefix + Digits(n);
    }
  }

  /** The number a string of decimal digits stands for. */
  function Value(s: string): nat
    requires AllDigits(s)
    decreases |s|
  {
    if s == [] then 0 else Value(s[..|s| - 1]) * 10 + (s[|s| - 1] as int - '0' as int)
  }

  /** Reading the digits of `n` back gives `n`. */
  lemma {:induction false} ValueOfDigits(n: nat)
    ensures Value(Digits(n)) == n
    decreases n
  {
    if n >= 10 {
      var d := Digits(n);
      assert d[..|d| - 1] == Digits(n / 10);
      ValueOfDigits(n / 10);
    }
  }

  function Zeros(k: nat): (r: string)
    ensures |r| == k && AllDigits(r)
  {
    seq(k, _ => '0')
  }

  /** Leading zeros do not change the value of a string of digits. */
  lemma {:induction false} ValueOfPadded(k: nat, s: string)
    requires AllDigits(s)
    ensures AllDigits(Zeros(k) + s) && Value(Zeros(k) + s) == Value(s)
    decreases |s|
  {
    var t := Zeros(k) + s;
    assert AllDigits(t) by {
      forall i | 0 <= i < |t|
        ensures IsDigit(t[i])
      {
        if i >= k {
          assert t[i] == s[i - k];
        }
      }
    }
    if s == [] {
      assert t == Zeros(k);
      ValueOfZeros(k);
    } else {
      var s' := s[..|s| - 1];
      assert t[..|t| - 1] == Zeros(k) + s';
      ValueOfPadded(k, s');
    }
  }

  lemma {:induction false} ValueOfZeros(k: nat)
    ensures Value(Zeros(k)) == 0
    decreases k
  {
    if k > 0 {
      assert Zeros(k)[..k - 1] == Zeros(k - 1);
      ValueOfZeros(k - 1);
    }
  }

  /** `f"{n:03d}"`: the decimal digits of `n`, padded with zeros to at least
      three characters. */
  function Format03(n: nat): (r: string)
    ensures AllDigits(r)
    ensures |r| == if |Digits(n)| < 3 then 3 else |Digits(n)|
  {
    if |Digits(n)| < 3 then Zeros(3 - |Digits(n)|) + Digits(n) else Digits(n)
  }

  /** The padded index reads back as the index. */
  lemma Format03Value(n: nat)
    ensures Value(Format03(n)) == n
  {
    ValueOfDigits(n);
    if |Digits(n)| < 3 {
      ValueOfPadded(3 - |Digits(n)|, Digits(n));
    }
  }

  /** `safe_filename(conv.get("title")) or f"conversation_{idx}"`: the
      fallback is never taken, because SafeFilename never returns an empty
      string. */
  function Filename(idx: nat, title: Option<string>): (r: string)
    ensures r == SafeFilename(title, DefaultMaxLength)
  {
    var name := SafeFilename(title, DefaultMaxLength);
    if name != [] then name else Interpolate(FallbackPrefix, idx)
  }

  /** `f"{idx:03d}_{filename}.md"` */
  function MarkdownName(idx: nat, filename: string): string {
    Format03(idx) + "_" + filename + Extension
  }

  /** The name starts with the padded index and `_`, and ends with `.md`. */
  lemma MarkdownNameShape(idx: nat, filename: string)
    ensures StartsWith(MarkdownName(idx, filename), Format03(idx) + "_")
    ensures EndsWith(MarkdownName(idx, filename), Extension)
  {
    var r := MarkdownName(idx, filename);
    assert r[..|Format03(idx) + "_"|] == Format03(idx) + "_";
    assert r[|r| - |Extension|..] == Extension;
  }

  /** The longest prefix of decimal digits. */
  function LeadingDigits(s: string): (r: string)
    ensures AllDigits(r) && |r| <= |s| && r == s[..|r|]
    decreases |s|
  {
    if s != [] && IsDigit(s[0]) then [s[0]] + LeadingDigits(s[1..]) else []
  }

  lemma {:induction false} LeadingDigitsOf(d: string, rest: string)
    requires AllDigits(d) && rest != [] && !IsDigit(rest[0])
    ensures LeadingDigits(d + rest) == d
    decreases |d|
  {
    if d == [] {
      assert d + rest == rest;
    } else {
      assert (d + rest)[1..] == d[1..] + rest;
      LeadingDigitsOf(d[1..], rest);
      assert [d[0]] + d[1..] == d;
    }
  }

  /** The index reads back from the file name: its leading digits stand for
      it. */
  lemma MarkdownNameIndex(idx: nat, filename: string)
    ensures Value(LeadingDigits(MarkdownName(idx, filename))) == idx
  {
    var rest := "_" + filename + Extension;
    assert MarkdownName(idx, filename) == Format03(idx) + rest;
    LeadingDigitsOf(Format03(idx), rest);
    Format03Value(idx);
  }

  /** Two conversations never share a file name: different indexes give
      different names, whatever the titles. */
  lemma MarkdownNamesDistinct(a: nat, b: nat, filenameA: string, filenameB: string)
    requires a != b
    ensures MarkdownName(a, filenameA) != MarkdownName(b, filenameB)
  {
    MarkdownNameIndex(a, filenameA);
    MarkdownNameIndex(b, filenameB);
  }

  /** The file names of the conversations, numbered from 1. */
  function FileNames(titles: seq<Option<string>>): (r: seq<string>)
    ensures |r| == |titles|
  {
    seq(|titles|, i requires 0 <= i < |titles| => MarkdownName(i + 1, Filename(i + 1, titles[i])))
  }

  /** `f"- [{md_name}]({md_name})"` */
  function IndexLine(name: string): string {
    "- [" + name + "](" + name + ")"
  }

  /** The entries of the index, one per file, in order. */
  function IndexEntries(names: seq<string>): (r: seq<string>)
    ensures |r| == |names|
  {
    seq(|names|, i requires 0 <= i < |names| => IndexLine(names[i]))
  }

  /** `"\n".join(index_lines) + "\n"` */
  function IndexDocument(names: seq<string>): string {
    Join([IndexHeading] + IndexEntries(names), "\n") + "\n"
  }

  lemma IndexEntriesStep(names: seq<string>, i: nat)
    requires i < |names|
    ensures IndexEntries(names[..i + 1]) == IndexEntries(names[..i]) + [IndexLine(names[i])]
  {
    var a, b := IndexEntries(names[..i + 1]), IndexEntries(names[..i]) + [IndexLine(names[i])];
    forall k | 0 <= k < |a|
      ensures a[k] == b[k]
    {
      if k < i {
        assert names[..i][k] == names[k];
      }
    }
  }

  /** A file name holds no line boundary. */
  lemma FilenameNoBreaks(idx: nat, title: Option<string>)
    ensures NoBreaks(Filename(idx, title))
  {
    var f := Filename(idx, title);
    SafeFilenameChars(title, DefaultMaxLength);
    forall j | 0 <= j < |f|
      ensures !IsLineBreak(f[j])
    {
      assert f[j] in f;
      FilenameCharPassesThrough(f[j]);
      LineBreakIsSpace(f[j]);
    }
  }

  /** Numbering a file name without line boundaries adds none. */
  lemma MarkdownNameNoBreaks(idx: nat, filename: string)
    requires NoBreaks(filename)
    ensures NoBreaks(MarkdownName(idx, filename))
  {
    var d := Format03(idx);
    var name := MarkdownName(idx, filename);
    forall j | 0 <= j < |name|
      ensures !IsLineBreak(name[j])
    {
      if j < |d| {
        assert name[j] == d[j];
      } else if j == |d| {
        assert name[j] == '_';
      } else if j < |d| + 1 + |filename| {
        assert name[j] == filename[j - |d| - 1];
      } else {
        assert name[j] == Extension[j - |d| - 1 - |filename|];
      }
    }
  }

  lemma IndexLineNoBreaks(name: string)
    requires NoBreaks(name)
    ensures NoBreaks(IndexLine(name))
  {
    var line := IndexLine(name);
    forall j | 0 <= j < |line|
      ensures !IsLineBreak(line[j])
    {
      if 3 <= j < 3 + |name| {
        assert line[j] == name[j - 3];
      } else if 5 + |name| <= j < 5 + 2 * |name| {
        assert line[j] == name[j - 5 - |name|];
      }
    }
  }

  /** The index document has the lines: the heading, an empty line, then one
      link per file, in order. */
  lemma IndexDocumentLines(names: seq<string>)
    requires forall i :: 0 <= i < |names| ==> NoBreaks(names[i])
    ensures SplitLines(IndexDocument(names)) == [IndexTitle, ""] + IndexEntries(names)
  {
    var entries := IndexEntries(names);
    var lines := [IndexTitle, ""] + entries;
    forall k | 0 <= k < |lines|
      ensures NoBreaks(lines[k])
    {
      if k >= 2 {
        IndexLineNoBreaks(names[k - 2]);
      }
    }
    assert Join([IndexHeading] + entries, "\n") == Join(lines, "\n") by {
      if entries == [] {
        assert Join(lines, "\n") == IndexTitle + "\n" + "";
      } else {
        JoinCons(IndexHeading, entries, "\n");
        JoinCons(IndexTitle, [""] + entries, "\n");
        JoinCons("", entries, "\n");
      }
    }
    SplitJoinTerminated(lines);
  }

  /** The index of a run: its heading, an empty line, and a link to each
      conversation's file, in order. */
  lemma ExportedIndexLines(titles: seq<Option<string>>)
    ensures SplitLines(IndexDocument(FileNames(titles))) == [IndexTitle, ""] + IndexEntries(FileNames(titles))
  {
    FileNamesNoBreaks(titles);
    IndexDocumentLines(FileNames(titles));
  }

  lemma FileNamesNoBreaks(titles: seq<Option<string>>)
    ensures forall i :: 0 <= i < |titles| ==> NoBreaks(FileNames(titles)[i])
  {
    forall i | 0 <= i < |titles|
      ensures NoBreaks(FileNames(titles)[i])
    {
      FilenameNoBreaks(i + 1, titles[i]);
      MarkdownNameNoBreaks(i + 1, Filename(i + 1, titles[i]));
    }
  }

  /** A written file: its name and its Markdown text. */
  datatype File = File(name: string, content: string)

  /** What `main` writes: the conversation files and `index.md`. */
  datatype Output = Output(files: seq<File>, index: string)

  function Titles(convs: seq<Conversation>): (r: seq<Option<string>>)
    ensures |r| == |convs|
  {
    seq(|convs|, i requires 0 <= i < |convs| => convs[i].title)
  }

  /** The export of each conversation. */
  function Markdowns(convs: seq<Conversation>): (r: seq<Run<string>>)
    ensures |r| == |convs|
  {
    seq(|convs|, i requires 0 <= i < |convs| => ConversationMarkdown(convs[i]))
  }

  /** The files written, in order, each name with its text; the first export
      that never ends stops everything. */
  function Collect(names: seq<string>, texts: seq<Run<string>>): Run<seq<File>>
    requires |names| == |texts|
    decreases |names|
  {
    if names == [] then Returns([])
    else
      var n := |names|;
      match Collect(names[..n - 1], texts[..n - 1])
      case RunsForever => RunsForever
      case Returns(files) =>
        match texts[n - 1]
        case RunsForever => RunsForever
        case Returns(md) => Returns(files + [File(names[n - 1], md)])
  }

  /** Everything `main` writes for a list of conversations. */
  function Exported(convs: seq<Conversation>): Run<Output> {
    Written(FileNames(Titles(convs)), Markdowns(convs))
  }

  /** The files and the index written for the given names and exports. */
  function Written(names: seq<string>, texts: seq<Run<string>>): Run<Output>
    requires |names| == |texts|
  {
    match Collect(names, texts)
    case RunsForever => RunsForever
    case Returns(files) => Returns(Output(files, IndexDocument(names)))
  }

  /** Once an export never ends, neither does the whole run. */
  lemma {:induction false} CollectForever(names: seq<string>, texts: seq<Run<string>>, k: nat)
    requires |names| == |texts| && k <= |names|
    requires Collect(names[..k], texts[..k]).RunsForever?
    ensures Collect(names, texts).RunsForever?
    decreases |names| - k
  {
    if k < |names| {
      assert names[..k + 1][..k] == names[..k];
      assert texts[..k + 1][..k] == texts[..k];
      CollectForever(names, texts, k + 1);
    } else {
      assert names[..k] == names && texts[..k] == texts;
    }
  }

  /** One more export: it either never ends, and neither does the run, or
      adds one file. */
  lemma CollectStep(names: seq<string>, texts: seq<Run<string>>, i: nat, files: seq<File>)
    requires |names| == |texts| && i < |names|
    requires Collect(names[..i], texts[..i]) == Returns(files)
    ensures texts[i].RunsForever? ==> Collect(names, texts).RunsForever?
    ensures texts[i].Returns? ==>
      Collect(names[..i + 1], texts[..i + 1]) == Returns(files + [File(names[i], texts[i].value)])
  {
    assert names[..i + 1][..i] == names[..i] && texts[..i + 1][..i] == texts[..i];
    if texts[i].RunsForever? {
      CollectForever(names, texts, i + 1);
    }
  }

  /** A run that finishes has every file: file `i` has name `i` and the text
      of export `i`, and every export finished. */
  lemma {:induction false} CollectContents(names: seq<string>, texts: seq<Run<string>>)
    requires |names| == |texts| && Collect(names, texts).Returns?
    ensures var files := Collect(names, texts).value;
      && |files| == |names|
      && forall i :: 0 <= i < |names| ==> texts[i] == Returns(files[i].content) && files[i].name == names[i]
    decreases |names|
  {
    if names != [] {
      var n := |names|;
      var names', texts' := names[..n - 1], texts[..n - 1];
      CollectContents(names', texts');
      var files := Collect(names, texts).value;
      var before := Collect(names', texts').value;
      assert files == before + [File(names[n - 1], texts[n - 1].value)];
      forall i | 0 <= i < n - 1
        ensures texts[i] == Returns(files[i].content) && files[i].name == names[i]
      {
        assert names[i] == names'[i] && texts[i] == texts'[i] && files[i] == before[i];
      }
    }
  }

  /** A finished run writes one file per conversation, in order: file `i` is
      named after position `i + 1` and the title, and holds the export of
      conversation `i`; the index links the files in the same order. */
  lemma ExportedFiles(convs: seq<Conversation>)
    requires Exported(convs).Returns?
    ensures var out := Exported(convs).value;
      && |out.files| == |convs|
      && (forall i :: 0 <= i < |convs| ==>
            && out.files[i].name == MarkdownName(i + 1, Filename(i + 1, convs[i].title))
            && ConversationMarkdown(convs[i]) == Returns(out.files[i].content))
      && out.index == IndexDocument(FileNames(Titles(convs)))
  {
    var names, texts := FileNames(Titles(convs)), Markdowns(convs);
    CollectContents(names, texts);
    var files := Collect(names, texts).value;
    forall i | 0 <= i < |convs|
      ensures files[i].name == MarkdownName(i + 1, Filename(i + 1, convs[i].title))
      ensures ConversationMarkdown(convs[i]) == Returns(files[i].content)
    {
      assert texts[i] == Returns(files[i].content);
    }
  }

  /** The loop of `main`: export each conversation, name its file, and
      collect the index lines. */
  method ExportAll(convs: seq<Conversation>) returns (r: Run<Output>)
    ensures r == Exported(convs)
  {
    r := WriteAll(convs, FileNames(Titles(convs)));
  }

  /** The body of `main`'s loop, given the name of each conversation's file:
      export it, write it under its name, and add its index line. */
  method WriteAll(convs: seq<Conversation>, names: seq<string>) returns (r: Run<Output>)
    requires |names| == |convs|
    ensures r == Written(names, Markdowns(convs))
  {
    ghost var texts := Markdowns(convs);
    var files: seq<File> := [];
    var indexLines := [IndexHeading];
    for i := 0 to |convs|
      invariant Collect(names[..i], texts[..i]) == Returns(files)
      invariant indexLines == [IndexHeading] + IndexEntries(names[..i])
    {
      var md := ExportConversation(convs[i]);
      var name := names[i];
      assert texts[i] == md;
      CollectStep(names, texts, i, files);
      if md.RunsForever? {
        return RunsForever;
      }
      files := files + [File(name, md.value)];
      indexLines := indexLines + [IndexLine(name)];
      IndexEntriesStep(names, i);
    }
    assert names[..|convs|] == names && texts[..|convs|] == texts;
    return Returns(Output(files, Join(indexLines, "\n") + "\n"));
  }

  /** A title that is already a safe name is used as it is: the file is
      named by the padded index, `_`, the title and `.md`. */
  lemma SafeTitleName(idx: nat, title: string)
    requires IsSafeName(title, DefaultMaxLength)
    ensures MarkdownName(idx, Filename(idx, Some(title))) == Format03(idx) + "_" + title + Extension
  {
    SafeFilenameFixedPoint(title, DefaultMaxLength);
  }

  /** The titles "Test" and "Test?" both give the file name "Test"... */
  lemma TestFilename()
    ensures Filename(1, Some("Test")) == "Test"
    ensures Filename(1, Some("Test?")) == "Test"
  {
    var s := "Test";
    assert forall i :: 0 <= i < |s| ==> IsFilenameChar(s[i]);
    SanitiseFixedPoint(s, DefaultMaxLength);
    TestQuestionExample();
  }

  /** ...and the first conversation's file is `"001_Test.md"`. */
  lemma TestNameExample()
    ensures MarkdownName(1, "Test") == "001_Test.md"
  {
    FirstIndex();
    assert "001" + "_" + "Test" + Extension == "001_Test.md";
  }

  lemma FirstIndex()
    ensures Format03(1) == "001"
  {
    assert Digits(1) == "1";
  }

  /** A second conversation whose title is missing or empty is written to
      `"002_untitled.md"`. */
  lemma UntitledNameExample()
    ensures Filename(2, None) == Untitled && Filename(2, Some("")) == Untitled
    ensures MarkdownName(2, Filename(2, Some(""))) == "002_untitled.md"
  {
    assert Digits(2) == "2";
    assert Format03(2) == "002";
    assert Filename(2, Some("")) == Untitled;
    assert MarkdownName(2, Untitled) == "002_untitled.md";
  }
}
