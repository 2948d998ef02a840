/** `strip_h1` and `extract_fragments`: the text a message node contributes,
    split into the user's request, the model's reasoning and its final answer. */
module Fragments {
  import opened Text
  import opened Schema

  const HeadingMarker := "# "
  const RequestTag := "REQUEST"
  const ThinkTag := "THINK"
  const ResponseTag := "RESPONSE"

  /** The first line starts with the heading marker exactly when the whole text
      does: the marker holds no line boundary. */
  lemma FirstLineIsHeading(text: string)
    ensures (SplitLines(text) != [] && StartsWith(SplitLines(text)[0], HeadingMarker))
            <==> StartsWith(text, HeadingMarker)
  {
    if text != [] {
      var i := FirstBreak(text);
      SplitLinesHead(text);
      var line := text[..i];
      if 2 <= |text| && text[..2] == HeadingMarker {
        assert text[0] == '#' && text[1] == ' ';
        assert 2 <= i;
      }
      if 2 <= |line| {
        assert line[..2] == text[..2];
      }
    }
  }

  /** What is left after the heading line is shorter than the text. */
  lemma AfterHeadingShorter(text: string)
    requires StartsWith(text, HeadingMarker)
    ensures |Join(SplitLines(text)[1..], "\n")| < |text|
  {
    var i := FirstBreak(text);
    if i < |text| {
      var tail := text[i + BreakWidth(text, i)..];
      SplitLinesTail(text);
      JoinSplitLength(tail);
    } else {
      assert SplitLines(text) == [text];
    }
  }

  /** What is left after the heading line of a stripped text ends where the
      text ends, unless nothing is left. */
  lemma AfterHeadingLast(text: string)
    requires StartsWith(text, HeadingMarker)
    ensures var rest := Join(SplitLines(text)[1..], "\n");
      IsStripped(text) && rest != [] ==> rest[|rest| - 1] == text[|text| - 1]
  {
    var i := FirstBreak(text);
    if !IsStripped(text) {
    } else if i < |text| {
      var tail := text[i + BreakWidth(text, i)..];
      SplitLinesTail(text);
      var lines := SplitLines(tail);
      assert SplitLines(text)[1..] == lines;
      if tail != [] {
        assert tail[|tail| - 1] == text[|text| - 1];
        LineBreakIsSpace(text[|text| - 1]);
        SplitLinesLast(tail);
        JoinLast(lines, "\n");
      }
    } else {
      assert SplitLines(text) == [text];
    }
  }

  /** `strip_h1(text)`: text that does not start with a `# ` heading comes back
      unchanged; otherwise the heading line goes, the rest loses its leading
      whitespace, and a stripped text stays stripped. */
  function StripH1(text: string): (r: string)
    ensures !StartsWith(text, HeadingMarker) ==> r == text
    ensures StartsWith(text, HeadingMarker) ==> |r| < |text| && (r != [] ==> !IsSpace(r[0]))
    ensures IsStripped(text) ==> IsStripped(r)
  {
    var lines := SplitLines(text);
    FirstLineIsHeading(text);
    if lines != [] && StartsWith(lines[0], HeadingMarker) then
      AfterHeadingShorter(text);
      AfterHeadingLast(text);
      TrimLeftIsSuffix(Join(lines[1..], "\n"), Whitespace);
      LStrip(Join(lines[1..], "\n"))
    else
      text
  }

  /** Applying StripH1 to a text without a leading heading line is idempotent. */
  lemma StripH1Idempotent(text: string)
    requires !StartsWith(text, HeadingMarker)
    ensures StripH1(StripH1(text)) == StripH1(text)
  {
  }

  /** A `# ` heading line followed by `\n` goes, and so does the whitespace
      that starts the rest of the text; the rest is kept as it is. */
  lemma StripH1Removes(line: string, rest: string)
    requires NoBreaks(line) && StartsWith(line, HeadingMarker)
    requires OnlyNewlines(rest) && (rest != [] ==> !IsLineBreak(rest[|rest| - 1]))
    ensures StripH1(line + "\n" + rest) == LStrip(rest)
  {
    var text := line + "\n" + rest;
    SplitLinesCons(line, rest);
    assert text[..2] == line[..2];
    JoinSplitLines(rest);
    assert SplitLines(text)[1..] == SplitLines(rest);
  }

  /** A response that is nothing but a heading line is removed entirely. */
  lemma HeadingOnly(text: string)
    requires StartsWith(text, HeadingMarker) && NoBreaks(text)
    ensures StripH1(text) == []
  {
    assert FirstBreak(text) == |text|;
  }

  /** The three slots of `extract_fragments`' result. */
  datatype Parts = Parts(request: Option<string>, think: Option<string>, response: Option<string>)

  const NoParts := Parts(None, None, None)

  /** `(frag.get("content") or "").strip()` */
  function StrippedContent(f: Fragment): (r: string)
    ensures IsStripped(r)
  {
    Strip(if f.content.Some? then f.content.value else "")
  }

  /** A fragment that writes the slot of `tag`: its type is `tag` and its
      stripped content is not empty. */
  predicate Writes(f: Fragment, tag: string) {
    f.tag == Some(tag) && StrippedContent(f) != ""
  }

  /** The stripped content of the last fragment that writes the slot of `tag`. */
  function LastWrite(frags: seq<Fragment>, tag: string): (r: Option<string>)
    ensures r.Some? ==> r.value != [] && IsStripped(r.value)
    decreases |frags|
  {
    if frags == [] then None
    else if Writes(frags[|frags| - 1], tag) then Some(StrippedContent(frags[|frags| - 1]))
    else LastWrite(frags[..|frags| - 1], tag)
  }

  /** The slots after all of `message`'s fragments: each one holds the last
      write of its type, the response passed through StripH1; a missing
      message leaves all three empty. */
  function PartsOf(message: Option<Message>): (p: Parts)
    ensures message.None? ==> p == NoParts
    ensures p.request.Some? ==> p.request.value != [] && IsStripped(p.request.value)
    ensures p.think.Some? ==> p.think.value != [] && IsStripped(p.think.value)
    ensures p.response.Some? ==> IsStripped(p.response.value)
  {
    match message
    case None => NoParts
    case Some(m) =>
      var response := LastWrite(m.fragments, ResponseTag);
      Parts(LastWrite(m.fragments, RequestTag), LastWrite(m.fragments, ThinkTag),
            if response.Some? then Some(StripH1(response.value)) else None)
  }

  /** `extract_fragments(message)`: one pass over the fragments, each
      non-empty one overwriting the slot of its type. */
  method ExtractFragments(message: Option<Message>) returns (parts: Parts)
    ensures parts == PartsOf(message)
  {
    parts := NoParts;
    if message.None? {
      return;
    }
    var frags := message.value.fragments;
    for i := 0 to |frags|
      invariant parts == PartsOf(Some(Message(frags[..i])))
    {
      assert frags[..i + 1][..i] == frags[..i];
      var f := frags[i];
      var content := Strip(if f.content.Some? then f.content.value else "");
      if content == "" {
        continue;
      }
      if f.tag == Some(RequestTag) {
        parts := parts.(request := Some(content));
      } else if f.tag == Some(ThinkTag) {
        parts := parts.(think := Some(content));
      } else if f.tag == Some(ResponseTag) {
        parts := parts.(response := Some(StripH1(content)));
      }
    }
    assert frags[..|frags|] == frags;
  }

  /** Last write wins, first half: the slot of `tag` is empty exactly when no
      fragment writes it. */
  lemma {:induction false} NoWriteLeavesEmpty(frags: seq<Fragment>, tag: string)
    ensures LastWrite(frags, tag).None? <==> forall i :: 0 <= i < |frags| ==> !Writes(frags[i], tag)
    decreases |frags|
  {
    if frags != [] {
      var n := |frags| - 1;
      var init := frags[..n];
      NoWriteLeavesEmpty(init, tag);
      if !Writes(frags[n], tag) {
        forall i | 0 <= i < n
          ensures frags[i] == init[i]
        {
        }
      }
    }
  }

  /** Last write wins, second half: a filled slot holds the content of a
      fragment that writes it and that no later fragment overrides. */
  lemma LastWriteWins(frags: seq<Fragment>, tag: string)
    ensures LastWrite(frags, tag).Some? ==>
      exists i :: 0 <= i < |frags| && Writes(frags[i], tag)
        && LastWrite(frags, tag).value == StrippedContent(frags[i])
        && forall j :: i < j < |frags| ==> !Writes(frags[j], tag)
  {
    if LastWrite(frags, tag).Some? {
      var i := LastWriter(frags, tag);
    }
  }

  /** The index of the fragment whose write fills the slot of `tag`. */
  lemma {:induction false} LastWriter(frags: seq<Fragment>, tag: string) returns (i: nat)
    requires LastWrite(frags, tag).Some?
    ensures i < |frags| && Writes(frags[i], tag)
    ensures LastWrite(frags, tag).value == StrippedContent(frags[i])
    ensures forall j :: i < j < |frags| ==> !Writes(frags[j], tag)
    decreases |frags|
  {
    var n := |frags| - 1;
    if Writes(frags[n], tag) {
      i := n;
    } else {
      var init := frags[..n];
      i := LastWriter(init, tag);
      assert frags[i] == init[i];
      forall j | i < j < |frags|
        ensures !Writes(frags[j], tag)
      {
        if j < n {
          assert frags[j] == init[j];
        }
      }
    }
  }

  /** What one more fragment does to the slots: a non-empty fragment of a known
      type overwrites its own slot and nothing else; any other fragment
      changes nothing. */
  lemma AppendFragment(frags: seq<Fragment>, f: Fragment)
    ensures var before, after := PartsOf(Some(Message(frags))), PartsOf(Some(Message(frags + [f])));
      var c := StrippedContent(f);
      && (Writes(f, RequestTag) ==> after == before.(request := Some(c)))
      && (Writes(f, ThinkTag) ==> after == before.(think := Some(c)))
      && (Writes(f, ResponseTag) ==> after == before.(response := Some(StripH1(c))))
      && (!Writes(f, RequestTag) && !Writes(f, ThinkTag) && !Writes(f, ResponseTag) ==> after == before)
  {
    assert (frags + [f])[..|frags|] == frags;
  }

  /** Two REQUEST fragments "A" then "B": the request slot holds "B". */
  lemma TwoRequestsExample()
    ensures PartsOf(Some(Message([Fragment(Some("REQUEST"), Some("A")),
                                  Fragment(Some("REQUEST"), Some("B"))]))).request == Some("B")
  {
    var b := Fragment(Some("REQUEST"), Some("B"));
    assert Strip("B") == "B";
    assert Writes(b, RequestTag);
  }
}
