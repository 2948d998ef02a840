# DeepSeek chat export to Markdown, modelled in Dafny

`json_to_md.py` turns a DeepSeek chat export into Markdown files. The export is
a JSON list of conversations. Each conversation holds a `mapping` from node ids
to nodes, and every node has `children` ids and an optional `message` made of
typed `fragments` (`REQUEST`, `THINK`, `RESPONSE`). For each conversation the
script does three things:

- It follows the main chain: from `root`, it takes the first child of every
  node.
- Per node it keeps the last non-empty fragment of each type.
- Per node it writes a user block, a quoted reasoning block and an answer
  block, each only when its slot is non-empty.

It then names the file `NNN_<safe title>.md` and adds a link to `index.md`.

The model follows the script module by module:

| module | file | models |
|---|---|---|
| `Text` | `text.dfy` | Python `str` built-ins the script relies on: `isspace`/`\s`, `strip`, `lstrip`, `strip(chars)`, `splitlines`, `startswith`, `sep.join` |
| `Schema` | `schema.dfy` | the parsed JSON: conversations, node entries (an empty dict `{}` is its own case because it is falsy), nodes, messages, fragments; `Run` marks a computation that never ends |
| `SafeName` | `safe_name.dfy` | `safe_filename`: the four substitutions, the truncation with Python slice semantics, `strip("_")`, and the `"untitled"` fallback |
| `Fragments` | `fragments.dfy` | `strip_h1` and `extract_fragments` (a loop, proved against the last-write-wins function `PartsOf`) |
| `Chain` | `chain.dfy` | `walk_main_chain` (a loop, proved against the recursive `MainChain`; a cycle is reported as `RunsForever`) |
| `Render` | `render.dfy` | `quote_block` and `export_conversation` (a loop over the chain, proved against `Blocks` and `Document`) |
| `Driver` | `driver.dfy` | the pure part of `main`: `f"{idx:03d}"`, the file name with its fallback, the index lines, and the loop that pairs every name with its export |

`safe_filename` never returns an empty string, so the `or f"conversation_{idx}"`
fallback of `main` is never taken. An empty or missing title gives
`untitled`, not `conversation_N`. `Driver.Filename` proves this.

Where the walk meets a cycle, the script loops forever. A reimplementation
could report the cycle as an error instead, but the model follows the code:
the result is `RunsForever`. `Chain.MainChainForever` proves that this happens
exactly when every turn of the loop finds a node.

## Model

| member | source | states |
|---|---|---|
| `Text.Strip` | json_to_md.py:35 | `strip()` never lengthens, and its result neither starts nor ends with whitespace |
| `Text.StripStripped` | json_to_md.py:35 | `strip()` leaves a string unchanged exactly when it has no leading or trailing whitespace (both directions), so `strip` is idempotent |
| `Text.TrimLeft` | json_to_md.py:25 | `lstrip(chars)`: never longer, and never starts with a stripped character; `Text.TrimLeftIsSuffix`, `Text.TrimLeftCutsOnlySet` and `Text.TrimLeftRun` show it cuts exactly the leading run of the set |
| `Text.TrimRight` | json_to_md.py:18 | `rstrip(chars)`: never longer, and never ends with a stripped character; `Text.TrimRightIsPrefix` and `Text.TrimRightCutsOnlySet` show it cuts only a trailing run of the set |
| `Text.LStrip` | json_to_md.py:25 | `lstrip()`: never longer, and never starts with whitespace |
| `Text.TrimLeftRun` | json_to_md.py:16 | `lstrip` removes a whole leading run of stripped characters and stops at the first character it keeps |
| `Text.TrimLeftIsSuffix` | json_to_md.py:25 | `lstrip` leaves a suffix of its input |
| `Text.TrimRightIsPrefix` | json_to_md.py:18 | the right-hand side of `strip("_")` leaves a prefix of its input |
| `Text.TrimLeftCutsOnlySet` | json_to_md.py:25 | `lstrip` cuts off only characters of the stripped set |
| `Text.TrimRightCutsOnlySet` | json_to_md.py:18 | the right-hand side of `strip("_")` cuts off only `_` |
| `Text.SplitLines` | json_to_md.py:23 | `splitlines()` gives no line for the empty string and at least one otherwise; no line holds a line boundary |
| `Text.SplitJoin` | json_to_md.py:25 | joining boundary-free lines with `\n` and splitting again gives back the same lines, provided the last one is not empty |
| `Text.SplitJoinTerminated` | json_to_md.py:117 | boundary-free lines joined with `\n`, plus a final `\n`, split back into exactly those lines |
| `Text.Join` | json_to_md.py:25 | `sep.join(parts)`; `Text.SplitJoin`, `Text.SplitJoinTerminated` and `Text.JoinSplitLines` state it as the inverse of `splitlines` |
| `Text.JoinSplitLines` | json_to_md.py:25 | splitting a text whose boundaries are all `\n` and rejoining the lines with `\n` gives the text back, unless it ends with a boundary |
| `Text.JoinSplitLength` | json_to_md.py:25 | splitting a text into lines and rejoining with `\n` never makes it longer |
| `Text.SplitLinesLast` | json_to_md.py:67 | the last line of a text that does not end in a line boundary is not empty and ends with the text's last character |
| `SafeName.ReplaceControls` | json_to_md.py:13 | same length; every `\r`, `\n` and `\t` becomes a space and every other character stays in place |
| `SafeName.Delete` | json_to_md.py:14-15 | `re.sub(class, "", s)` never lengthens; `SafeName.DeleteKeeps`, `SafeName.DeleteConcat` and `SafeName.DeleteNothing` state what it keeps and in which order |
| `SafeName.DropHazards` | json_to_md.py:14 | the second substitution is `Delete` with the hazard class `` #*!`$<>\|:?/\ `` |
| `SafeName.KeepAllowed` | json_to_md.py:15 | the third substitution is `Delete` with the complement of word characters, ideographs, `-` and space |
| `SafeName.DeleteConcat` | json_to_md.py:14-15 | deleting from a concatenation deletes from each part, so the kept characters keep their order |
| `SafeName.DeleteKeeps` | json_to_md.py:14-15 | a character occurs in the result of a deleting substitution exactly when it occurs in the input and is not of the deleted class |
| `SafeName.DeleteNothing` | json_to_md.py:14-15 | a deleting substitution leaves a string that holds none of its class unchanged |
| `SafeName.CollapseSpaces` | json_to_md.py:16 | `re.sub(r"\s+", "_", s)` never lengthens; `SafeName.CollapseRun` states what it does to each whitespace run |
| `SafeName.CollapseRun` | json_to_md.py:16 | a maximal run of whitespace after a whitespace-free stretch becomes exactly one `_`, and the collapse carries on after it |
| `SafeName.CollapseSpacesChars` | json_to_md.py:16 | `\s+` → `_` brings in no character but `_` and leaves no whitespace |
| `SafeName.CollapseNoSpaces` | json_to_md.py:16 | a string without whitespace is unchanged by the collapse |
| `SafeName.PyPrefix` | json_to_md.py:18 | `s[:n]` is a prefix of length `min(n, len(s))` for `n >= 0`, and `max(len(s) + n, 0)` for negative `n` |
| `SafeName.StripUnderscores` | json_to_md.py:18 | `strip("_")` leaves no `_` at either end, and leaves alone a string with none there |
| `SafeName.Sanitise` | json_to_md.py:13-18 | the pipeline on a non-empty title: no `_` at either end, at most `max_length` characters; `SafeName.SanitiseChars` and `SafeName.SanitiseTruncates` state what it keeps |
| `SafeName.SanitiseChars` | json_to_md.py:13-18 | whatever the title, the pipeline leaves only word characters, CJK ideographs, `-` and `_` |
| `SafeName.SafeFilename` | json_to_md.py:9-18 | never empty; `untitled` for a missing or empty title; no `_` at either end; at most `maxLength` characters unless it is `untitled` |
| `SafeName.SafeFilenameChars` | json_to_md.py:9-18 | every character of the result is a word character, an ideograph, `-` or `_` |
| `SafeName.SafeFilenameIsSafe` | json_to_md.py:9-18 | no result holds any of `` #*!`$<>\|:?/\ `` or any whitespace |
| `SafeName.SafeFilenameShape` | json_to_md.py:9-18 | with room for `untitled`, every result is a safe name: non-empty, within the limit, file-name characters only, no `_` at either end |
| `SafeName.SafeFilenameFixedPoint` | json_to_md.py:9-18 | with room for `untitled`, `safe_filename` leaves a name unchanged exactly when it is a safe name (both directions) |
| `SafeName.SafeFilenameIdempotent` | json_to_md.py:9-18 | with room for `untitled`, sanitising a sanitised name changes nothing |
| `SafeName.SanitiseTruncates` | json_to_md.py:13-18 | on a title of file-name characters only the truncation and `strip("_")` have any effect |
| `SafeName.SanitiseFixedPoint` | json_to_md.py:13-18 | a name of file-name characters within the limit, with no `_` at either end, passes through unchanged |
| `SafeName.ShortLimitExample` | json_to_md.py:10-18 | with `max_length=3`, `untitled` itself is cut to `unt`, so idempotence needs room for the fallback |
| `SafeName.HelloWorldExample` | json_to_md.py:9-18 | `safe_filename("Hello: World?") == "Hello_World"` |
| `SafeName.TestQuestionExample` | json_to_md.py:9-18 | `safe_filename("Test?") == "Test"` |
| `SafeName.OnlyPunctuationExample` | json_to_md.py:14-18 | a title of hazardous punctuation only falls back to `untitled` |
| `Fragments.FirstLineIsHeading` | json_to_md.py:23-24 | the first line starts with `# ` exactly when the text does |
| `Fragments.StripH1` | json_to_md.py:21-26 | text that does not start with `# ` is returned unchanged; otherwise the result is shorter and starts with no whitespace; a stripped text stays stripped |
| `Fragments.StripH1Removes` | json_to_md.py:21-26 | a `# ` heading line followed by `\n` is removed, and what follows is only left-stripped |
| `Fragments.StripH1Idempotent` | json_to_md.py:21-26 | on a text without a leading heading, `strip_h1` is idempotent |
| `Fragments.AfterHeadingShorter` | json_to_md.py:23-25 | dropping a `# ` first line and rejoining the rest makes the text strictly shorter |
| `Fragments.AfterHeadingLast` | json_to_md.py:23-25 | for a stripped text, what is left after the heading line still ends with the text's last character |
| `Fragments.HeadingOnly` | json_to_md.py:23-25 | a text that is nothing but a `# ` heading line becomes empty |
| `Fragments.StrippedContent` | json_to_md.py:35 | `(content or "").strip()` is stripped |
| `Fragments.LastWrite` | json_to_md.py:34-45 | a filled slot holds a non-empty stripped text |
| `Fragments.PartsOf` | json_to_md.py:29-47 | a missing message leaves all three slots empty; a filled request or reasoning slot is non-empty and stripped; a filled answer is stripped |
| `Fragments.ExtractFragments` | json_to_md.py:29-47 | the loop over the fragments computes exactly `PartsOf(message)` |
| `Fragments.NoWriteLeavesEmpty` | json_to_md.py:34-45 | the slot of a type is empty exactly when no fragment of that type has non-blank content (both directions) |
| `Fragments.LastWriteWins` | json_to_md.py:34-45 | a filled slot holds the stripped content of a fragment of its type that no later non-blank fragment of that type overrides |
| `Fragments.LastWriter` | json_to_md.py:34-45 | gives the index of that fragment |
| `Fragments.AppendFragment` | json_to_md.py:35-45 | one more fragment overwrites only its own slot (the answer through `strip_h1`); a blank or unknown fragment changes nothing |
| `Fragments.TwoRequestsExample` | json_to_md.py:40-41 | two `REQUEST` fragments `A` then `B` leave `B` |
| `Chain.Lookup` | json_to_md.py:57-58 | `mapping.get(id)` yields a node exactly when the id is non-empty and maps to a non-empty node |
| `Chain.Start` | json_to_md.py:51-55 | the first child of `root`, or the empty id when `root` is missing, empty or childless; `Chain.ChainLinks` and `Chain.NoRootExample` state it |
| `Chain.Next` | json_to_md.py:62-63 | the first child of a node, or the empty id when it has none |
| `Chain.WalkFrom` | json_to_md.py:56-63 | the loop from one id with a set of visited ids; `Chain.WalkFromTurns` relates it to the turns of the loop |
| `Chain.MainChain` | json_to_md.py:50-63 | the nodes `walk_main_chain` yields, or `RunsForever`; `Chain.MainChainForever`, `Chain.MainChainTurns` and `Chain.ChainLinks` state which |
| `Chain.WalkMainChain` | json_to_md.py:50-63 | the loop collects exactly `MainChain(mapping)`; its visited set is how a revisited id shows up as `RunsForever` |
| `Chain.IterateAdd` | json_to_md.py:56-63 | `a + b` turns of the loop are `a` turns followed by `b` more |
| `Chain.CycleYieldsForever` | json_to_md.py:56-63 | if some turn comes back to the id of an earlier turn and every turn before it found a node, every turn finds a node |
| `Chain.WalkFromTurns` | json_to_md.py:56-63 | from turn `k` on, the walk never stops exactly when every turn finds a node; otherwise it yields the node of each turn up to the first that finds none |
| `Chain.MainChainForever` | json_to_md.py:50-63 | the walk never stops exactly when every turn of the loop finds a node (both directions) |
| `Chain.MainChainTurns` | json_to_md.py:50-63 | when the walk stops, node `i` is the node of turn `i`, and the turn after the last one finds nothing |
| `Chain.ChainLinks` | json_to_md.py:51-63 | the first node is the first child of `root`, each next node is the first child of the one before, and the chain ends where that child is missing, empty or absent |
| `Chain.SelfLoopExample` | json_to_md.py:56-63 | a node whose first child is itself makes the walk run forever |
| `Chain.NoRootExample` | json_to_md.py:51-53 | a mapping without `root` yields nothing |
| `Render.QuoteBlock` | json_to_md.py:66-67 | `quote_block`; `Render.QuoteBlockLines` and `Render.QuoteBlockLast` state its lines and its end |
| `Render.QuoteBlockLines` | json_to_md.py:66-67 | the lines of `quote_block(t)` are the lines of `t`, in order, each prefixed with `> ` |
| `Render.QuoteBlockLast` | json_to_md.py:66-67 | a quoted block ends with the last character of a text that does not end in a line boundary |
| `Render.NodeBlocks` | json_to_md.py:77-88 | the blocks of one node; `Render.NodeBlocksOrdered` and `Render.NodeBlocksClean` state them |
| `Render.Blocks` | json_to_md.py:74-88 | the blocks of a chain, node by node; `Render.BlocksAppend` and `Render.BlocksClean` state them |
| `Render.ConversationMarkdown` | json_to_md.py:70-90 | `export_conversation`; `Render.MarkdownIsJoinedBlocks` and `Render.Document` state the text |
| `Render.AppendNodeBlocks` | json_to_md.py:77-88 | one node adds exactly `NodeBlocks(parts)` after the blocks so far |
| `Render.NodeBlockRanks` | json_to_md.py:77-88 | every block of a node starts with the header of its own slot |
| `Render.NodeBlocksOrdered` | json_to_md.py:77-88 | a node gives one block per present slot, in the order request, reasoning, answer, each at most once |
| `Render.NodeBlocksClean` | json_to_md.py:77-88 | no block of a node starts or ends with whitespace |
| `Render.BlocksClean` | json_to_md.py:74-88 | no block of a chain starts or ends with whitespace |
| `Render.BlocksAppend` | json_to_md.py:74-88 | the blocks of two stretches of the chain are the blocks of the first followed by those of the second |
| `Render.ThinkBlockClean` | json_to_md.py:80-84 | the reasoning header followed by the quoted reasoning neither starts nor ends with whitespace |
| `Render.JoinClean` | json_to_md.py:90 | joining blocks that neither start nor end with whitespace gives text that `strip()` leaves alone |
| `Render.Document` | json_to_md.py:90 | the document ends with `\n`, is stripped before it, and is a single `\n` without blocks |
| `Render.ExportConversation` | json_to_md.py:70-90 | the loop computes exactly `ConversationMarkdown(conv)`: `RunsForever` on a cycle, otherwise the document of the chain's blocks |
| `Render.MarkdownIsJoinedBlocks` | json_to_md.py:90 | the final `strip()` never removes anything: the export is the blocks joined by blank lines plus `\n` |
| `Render.EmptyChainExample` | json_to_md.py:90 | a conversation whose chain is empty exports as `\n` |
| `Render.HiChain` | json_to_md.py:50-63 | a root with one child node that has no children yields just that node |
| `Render.HiParts` | json_to_md.py:29-47 | that node's single `REQUEST` fragment `Hi` fills only the request slot |
| `Render.HiExample` | json_to_md.py:70-90 | one node with a `REQUEST` fragment `Hi` exports as `## 👤 用户\nHi\n` |
| `Driver.Digits` | json_to_md.py:107-108 | the decimal digits of `n`: never empty, all digits, no leading zero from 10 on |
| `Driver.ValueOfDigits` | json_to_md.py:108 | the digits read back as the number |
| `Driver.InterpolateDigits` | json_to_md.py:107 | `f"conversation_{idx}"` is the prefix followed by the digits of `idx` |
| `Driver.Format03` | json_to_md.py:108 | `f"{idx:03d}"` is all digits, three of them or more when the number needs more |
| `Driver.ValueOfPadded` | json_to_md.py:108 | leading zeros do not change the value of a digit string |
| `Driver.FirstIndex` | json_to_md.py:108 | `f"{1:03d}"` is `001` |
| `Driver.Format03Value` | json_to_md.py:108 | the padded index reads back as the index |
| `Driver.Filename` | json_to_md.py:107 | the fallback never applies: the file name is `safe_filename(title)` |
| `Driver.MarkdownName` | json_to_md.py:108 | `f"{idx:03d}_{filename}.md"`; `Driver.MarkdownNameShape`, `Driver.MarkdownNameIndex` and `Driver.MarkdownNamesDistinct` state it |
| `Driver.MarkdownNameShape` | json_to_md.py:108 | the name starts with the padded index and `_`, and ends with `.md` |
| `Driver.MarkdownNameIndex` | json_to_md.py:108 | the leading digits of a file name read back as its index, whatever the title |
| `Driver.MarkdownNamesDistinct` | json_to_md.py:104-108 | two conversations never get the same file name |
| `Driver.FilenameNoBreaks` | json_to_md.py:107 | a file name holds no line boundary |
| `Driver.MarkdownNameNoBreaks` | json_to_md.py:108 | numbering a boundary-free file name adds no line boundary |
| `Driver.IndexLine` | json_to_md.py:112 | the link line `- [name](name)`; `Driver.IndexLineNoBreaks` states it is one line |
| `Driver.IndexDocument` | json_to_md.py:102-117 | the text of `index.md`; `Driver.IndexDocumentLines` states its lines |
| `Driver.IndexLineNoBreaks` | json_to_md.py:112 | the link line of a boundary-free name has no line boundary |
| `Driver.IndexDocumentLines` | json_to_md.py:102-117 | `index.md` has the lines: the heading, an empty line, and one link per file, in order |
| `Driver.ExportedIndexLines` | json_to_md.py:102-117 | the same for the names of a run |
| `Driver.CollectForever` | json_to_md.py:104-105 | once one export never ends, neither does the run |
| `Driver.CollectContents` | json_to_md.py:104-113 | a finished run writes one file per conversation, file `i` under name `i` with the text of export `i` |
| `Driver.ExportedFiles` | json_to_md.py:104-117 | file `i` is named after position `i + 1` and the title and holds the export of conversation `i`, and the index links all files in order |
| `Driver.WriteAll` | json_to_md.py:102-117 | the loop writes exactly `Written(names, exports)`: the files collected in order and the index of all names |
| `Driver.ExportAll` | json_to_md.py:102-117 | `main` on parsed conversations produces exactly `Exported(convs)`: all files and the index when every export ends, `RunsForever` otherwise |
| `Driver.SafeTitleName` | json_to_md.py:107-108 | a title that is already a safe name is used as the file name as it is |
| `Driver.TestFilename` | json_to_md.py:107 | the titles `Test` and `Test?` both give the file name `Test` |
| `Driver.TestNameExample` | json_to_md.py:108 | the first conversation's file is `001_Test.md` |
| `Driver.UntitledNameExample` | json_to_md.py:107-108 | a second conversation whose title is missing or empty is written to `002_untitled.md` |

## Left out

- Reading `conversations.json`, JSON decoding and the `TypeError` for a non-list top level (json_to_md.py:94-100). The model starts from the parsed values in `Schema`.
- Creating the output directory, writing the files and the progress messages (json_to_md.py:95-96, 109-110, 113-118). `Driver.Output` holds the files and the text of `index.md` instead. The output directory's path is not modelled.
- JSON values of unexpected types. Examples: a non-string `content`, `"fragments": null` (which raises `TypeError`), or a non-string child id. `Schema` only has the shapes the script expects: a missing key becomes `None`, `[]` or an empty map, as `dict.get` gives. A `None` child id is the empty string, which is just as falsy.
- `SafeName.IsWordChar`: `\w` uses Python's full Unicode table of letters, digits and numerals. The model takes ASCII letters, digits and `_`, the Latin-1 letters and numerals (`ª²³µ¹º¼½¾` and `À`-`ÿ` without `×` and `÷`) and U+4E00-U+9FFF. A title with characters from other scripts, or with numerals such as `Ⅻ` or `①`, keeps fewer characters in the model than in Python.
- `Chain.WalkMainChain`: the generator is lazy, but the model collects the whole chain before rendering. The walk only reads the mapping, so the blocks are the same. A cycle, where Python hangs, is reported as `RunsForever` through a set of visited ids. That set is a modelling device, not part of the script.
- `SafeName.SafeFilenameIdempotent`: it requires `max_length >= 8`. Below that the fallback `untitled` is itself cut by the next call (`SafeName.ShortLimitExample`).
- `Fragments.StripH1Idempotent`: it is stated only for text without a leading `# ` line. A text with two heading lines loses one per call.
- `Driver.ExportAll`: when the walk of conversation `k` never ends, the script has already written the files `001` to `k-1` and never writes `index.md` (json_to_md.py:104-110). The model's result is just `RunsForever`; it does not record the files written before the hang.
- `Driver.ExportAll`: it computes the file names with `FileNames` before the loop, where the script computes each one inside the loop (json_to_md.py:107-108). The names are a pure function of the index and the title, so the result is the same.
