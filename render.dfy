/** `quote_block` and `export_conversation`: the Markdown text of one
    conversation, made of one block per non-empty slot of every node on the
    main chain, blocks separated by a blank line, the whole stripped and
    ended by one newline. */
module Render {
  import opened Text
  import opened Schema
  import opened Fragments
  import opened Chain

  const UserHeader := "## 👤 用户\n"
  const ThinkHeader := "## 🤖 DeepSeek（模型思考）\n"
  const AnswerHeader := "## 🤖 DeepSeek（最终回答）\n"
  const BlockSeparator := "\n\n"

  /** Each line with `> ` in front. */
  function QuoteLines(lines: seq<string>): (r: seq<string>)
    ensures |r| == |lines|
  {
    seq(|lines|, i requires 0 <= i < |lines| => "> " + lines[i])
  }

  /** `quote_block(text)`: the lines of `text`, each quoted, joined by `\n`. */
  function QuoteBlock(text: string): string {
    Join(QuoteLines(SplitLines(text)), "\n")
  }

  /** Quoting keeps the lines: the quoted block has exactly the lines of the
      text, in order, each with `> ` in front. */
  lemma QuoteBlockLines(text: string)
    ensures SplitLines(QuoteBlock(text)) == QuoteLines(SplitLines(text))
  {
    var lines := SplitLines(text);
    var quoted := QuoteLines(lines);
    forall k | 0 <= k < |quoted|
      ensures NoBreaks(quoted[k])
    {
      assert quoted[k] == "> " + lines[k];
      assert NoBreaks(lines[k]);
    }
    SplitJoin(quoted);
  }

  /** The quoted block of a text that does not end with a line boundary ends
      with the last character of the text. */
  lemma QuoteBlockLast(text: string)
    requires text != [] && !IsLineBreak(text[|text| - 1])
    ensures var q := QuoteBlock(text); q != [] && q[|q| - 1] == text[|text| - 1]
  {
    var lines := SplitLines(text);
    SplitLinesLast(text);
    var quoted := QuoteLines(lines);
    assert quoted[|quoted| - 1] == "> " + lines[|lines| - 1];
    JoinLast(quoted, "\n");
  }

  /** `if parts[...]:` — the slot holds a non-empty text. */
  predicate Present(slot: Option<string>) {
    slot.Some? && slot.value != ""
  }

  /** The blocks one node contributes: request, then reasoning (quoted), then
      answer, each only when its slot is present. */
  function NodeBlocks(p: Parts): seq<string> {
    (if Present(p.request) then [UserHeader + p.request.value] else [])
    + (if Present(p.think) then [ThinkHeader + QuoteBlock(p.think.value)] else [])
    + (if Present(p.response) then [AnswerHeader + p.response.value] else [])
  }

  /** The blocks of a sequence of nodes, node by node. */
  function Blocks(nodes: seq<Node>): seq<string>
    decreases |nodes|
  {
    if nodes == [] then []
    else Blocks(nodes[..|nodes| - 1]) + NodeBlocks(PartsOf(nodes[|nodes| - 1].message))
  }

  /** `"\n\n".join(blocks).strip() + "\n"`: ends with exactly one newline, and
      is a single newline when there are no blocks. */
  function Document(blocks: seq<string>): (r: string)
    ensures r != [] && r[|r| - 1] == '\n'
    ensures IsStripped(r[..|r| - 1])
    ensures blocks == [] ==> r == "\n"
  {
    var body := Strip(Join(blocks, BlockSeparator));
    assert (body + "\n")[..|body|] == body;
    body + "\n"
  }

  /** `export_conversation(conv)`, when the walk of its main chain stops. */
  function ConversationMarkdown(conv: Conversation): Run<string> {
    match MainChain(conv.mapping)
    case RunsForever => RunsForever
    case Returns(nodes) => Returns(Document(Blocks(nodes)))
  }

  /** `export_conversation(conv)`: walks the main chain, extracts each node's
      slots and collects the blocks in order. */
  method ExportConversation(conv: Conversation) returns (r: Run<string>)
    ensures r == ConversationMarkdown(conv)
  {
    var chain := WalkMainChain(conv.mapping);
    if chain.RunsForever? {
      return RunsForever;
    }
    var nodes := chain.value;
    var blocks: seq<string> := [];
    for i := 0 to |nodes|
      invariant blocks == Blocks(nodes[..i])
    {
      BlocksStep(nodes, i);
      var parts := ExtractFragments(nodes[i].message);
      blocks := AppendNodeBlocks(blocks, parts);
    }
    assert nodes[..|nodes|] == nodes;
    return Returns(Strip(Join(blocks, BlockSeparator)) + "\n");
  }

  /** The body of the loop of `export_conversation` for one node: one block
      per present slot, in the order request, reasoning, answer. */
  method AppendNodeBlocks(blocks: seq<string>, parts: Parts) returns (r: seq<string>)
    ensures r == blocks + NodeBlocks(parts)
  {
    r := blocks;
    if parts.request.Some? && parts.request.value != "" {
      r := r + [UserHeader + parts.request.value];
    }
    if parts.think.Some? && parts.think.value != "" {
      r := r + [ThinkHeader + QuoteBlock(parts.think.value)];
    }
    if parts.response.Some? && parts.response.value != "" {
      r := r + [AnswerHeader + parts.response.value];
    }
  }

  lemma BlocksStep(nodes: seq<Node>, i: nat)
    requires i < |nodes|
    ensures Blocks(nodes[..i + 1]) == Blocks(nodes[..i]) + NodeBlocks(PartsOf(nodes[i].message))
  {
    assert nodes[..i + 1][..i] == nodes[..i];
  }

  /** The blocks of two stretches of the chain are the blocks of the first
      followed by those of the second: the document follows chain order. */
  lemma {:induction false} BlocksAppend(a: seq<Node>, b: seq<Node>)
    ensures Blocks(a + b) == Blocks(a) + Blocks(b)
    decreases |b|
  {
    if b == [] {
      assert a + b == a;
    } else {
      var b' := b[..|b| - 1];
      assert (a + b)[..|a + b| - 1] == a + b';
      BlocksAppend(a, b');
    }
  }

  /** Index of the header a block starts with: 0 for the request, 1 for the
      reasoning, 2 for the answer, 3 for none of them. */
  function Rank(block: string): nat {
    if StartsWith(block, UserHeader) then 0
    else if StartsWith(block, ThinkHeader) then 1
    else if StartsWith(block, AnswerHeader) then 2
    else 3
  }

  lemma RankUser(text: string)
    ensures Rank(UserHeader + text) == 0
  {
    assert (UserHeader + text)[..|UserHeader|] == UserHeader;
  }

  lemma RankThink(text: string)
    ensures Rank(ThinkHeader + text) == 1
  {
    var b := ThinkHeader + text;
    assert b[3] == ThinkHeader[3] != UserHeader[3];
    assert b[..|ThinkHeader|] == ThinkHeader;
  }

  lemma RankAnswer(text: string)
    ensures Rank(AnswerHeader + text) == 2
  {
    var b := AnswerHeader + text;
    assert b[3] == AnswerHeader[3] != UserHeader[3];
    assert b[16] == AnswerHeader[16] != ThinkHeader[16];
    assert b[..|AnswerHeader|] == AnswerHeader;
  }

  /** The header ranks of a node's blocks, slot by slot. */
  function Ranks(p: Parts): seq<nat> {
    (if Present(p.request) then [0] else [])
    + (if Present(p.think) then [1] else [])
    + (if Present(p.response) then [2] else [])
  }

  /** Each block of a node starts with the header of its slot. */
  lemma NodeBlockRanks(p: Parts)
    ensures |NodeBlocks(p)| == |Ranks(p)|
    ensures forall i :: 0 <= i < |Ranks(p)| ==> Rank(NodeBlocks(p)[i]) == Ranks(p)[i]
  {
    if p.request.Some? { RankUser(p.request.value); }
    if p.think.Some? { RankThink(QuoteBlock(p.think.value)); }
    if p.response.Some? { RankAnswer(p.response.value); }
  }

  /** Within one node the blocks come in the order request, reasoning,
      answer, each at most once, and there is one per present slot. */
  lemma NodeBlocksOrdered(p: Parts)
    ensures var bs := NodeBlocks(p);
      && |bs| == (if Present(p.request) then 1 else 0) + (if Present(p.think) then 1 else 0)
                 + (if Present(p.response) then 1 else 0)
      && (forall i :: 0 <= i < |bs| ==> Rank(bs[i]) < 3)
      && (forall i, j :: 0 <= i < j < |bs| ==> Rank(bs[i]) < Rank(bs[j]))
  {
    NodeBlockRanks(p);
    var rs := Ranks(p);
    assert forall i, j :: 0 <= i < j < |rs| ==> rs[i] < rs[j];
  }

  /** A block the final strip cannot touch: it neither starts nor ends with
      whitespace. */
  predicate Clean(block: string) {
    block != [] && IsStripped(block)
  }

  /** Joining clean blocks gives a text strip leaves alone. */
  lemma JoinClean(blocks: seq<string>, sep: string)
    requires forall i :: 0 <= i < |blocks| ==> Clean(blocks[i])
    ensures IsStripped(Join(blocks, sep))
  {
    if blocks != [] {
      JoinFirst(blocks, sep);
      JoinLast(blocks, sep);
    }
  }

  /** A header followed by a non-empty text that does not end in whitespace
      is clean. */
  lemma HeaderClean(header: string, text: string)
    requires header != [] && header[0] == '#'
    requires text != [] && !IsSpace(text[|text| - 1])
    ensures Clean(header + text)
  {
  }

  /** Every block a node contributes is clean. */
  lemma NodeBlocksClean(p: Parts)
    requires p.request.Some? ==> IsStripped(p.request.value)
    requires p.think.Some? ==> IsStripped(p.think.value)
    requires p.response.Some? ==> IsStripped(p.response.value)
    ensures forall i :: 0 <= i < |NodeBlocks(p)| ==> Clean(NodeBlocks(p)[i])
  {
    if Present(p.request) {
      HeaderClean(UserHeader, p.request.value);
    }
    if Present(p.think) {
      ThinkBlockClean(p.think.value);
    }
    if Present(p.response) {
      HeaderClean(AnswerHeader, p.response.value);
    }
  }

  /** The reasoning block of a non-empty stripped text is clean. */
  lemma ThinkBlockClean(t: string)
    requires t != [] && IsStripped(t)
    ensures Clean(ThinkHeader + QuoteBlock(t))
  {
    LineBreakIsSpace(t[|t| - 1]);
    QuoteBlockLast(t);
    HeaderClean(ThinkHeader, QuoteBlock(t));
  }

  /** Every block of a chain is clean. */
  lemma {:induction false} BlocksClean(nodes: seq<Node>)
    ensures forall i :: 0 <= i < |Blocks(nodes)| ==> Clean(Blocks(nodes)[i])
    decreases |nodes|
  {
    if nodes != [] {
      BlocksClean(nodes[..|nodes| - 1]);
      NodeBlocksClean(PartsOf(nodes[|nodes| - 1].message));
    }
  }

  /** The final strip of `export_conversation` never removes anything: the
      document is exactly the blocks joined by blank lines, plus one
      newline. */
  lemma MarkdownIsJoinedBlocks(conv: Conversation)
    requires MainChain(conv.mapping).Returns?
    ensures ConversationMarkdown(conv)
              == Returns(Join(Blocks(MainChain(conv.mapping).value), BlockSeparator) + "\n")
  {
    var blocks := Blocks(MainChain(conv.mapping).value);
    BlocksClean(MainChain(conv.mapping).value);
    JoinClean(blocks, BlockSeparator);
    StripStripped(Join(blocks, BlockSeparator));
  }

  /** A conversation whose chain yields nothing exports as a single
      newline. */
  lemma EmptyChainExample(conv: Conversation)
    requires MainChain(conv.mapping) == Returns([])
    ensures ConversationMarkdown(conv) == Returns("\n")
  {
  }
  const HiNode := Node([], Some(Message([Fragment(Some(RequestTag), Some("Hi"))])))
  const HiMapping := map[RootId := NodeDict(Node(["n1"], None)), "n1" := NodeDict(HiNode)]

  lemma HiChain()
    ensures MainChain(HiMapping) == Returns([HiNode])
  {
    var m := HiMapping;
    assert Start(m) == "n1";
    assert Yields(m, "n1") && m["n1"].node == HiNode && Next(HiNode) == "";
    assert WalkFrom(m, "", {"n1"}) == Returns([]);
    assert {} + {"n1"} == {"n1"};
    assert [HiNode] + [] == [HiNode];
    assert WalkFrom(m, "n1", {}) == Returns([HiNode]);
  }

  lemma HiParts()
    ensures PartsOf(HiNode.message) == Parts(Some("Hi"), None, None)
  {
    var f := Fragment(Some(RequestTag), Some("Hi"));
    StripStripped("Hi");
    assert StrippedContent(f) == "Hi";
    assert [f][..0] == [];
    assert LastWrite([f], RequestTag) == Some("Hi");
    assert LastWrite([f], ThinkTag) == None;
    assert LastWrite([f], ResponseTag) == None;
  }

  lemma HiDocument()
    ensures Document([UserHeader + "Hi"]) == "## 👤 用户\nHi\n"
  {
    var b := UserHeader + "Hi";
    assert Join([b], BlockSeparator) == b;
    StripStripped(b);
  }

  /** One node with a single REQUEST fragment "Hi" exports as the user header
      and the text. */
  lemma HiExample()
    ensures ConversationMarkdown(Conversation(Some("Test"), HiMapping)) == Returns("## 👤 用户\nHi\n")
  {
    HiChain();
    HiParts();
    assert [HiNode][..0] == [];
    assert Blocks([HiNode]) == [UserHeader + "Hi"];
    HiDocument();
  }
}
