# Inline parsing of the richtext LaTeX extension, in Dafny

This project models the inline parser that the richtext Markdown renderer uses to turn the
text of one block into inline nodes. It is a Kotlin copy of commonmark-java's inline parser
with one extra inline content parser, `DollarsInlineParser`, which reads `$…$` and `$$…$$`
math spans into `Latex` nodes. The model follows three source files:

- `InlineParserImpl.kt` is the parser itself. It walks the text with a `Scanner`, builds Text
  nodes, line breaks, links and images, and keeps two stacks. The delimiter stack holds runs
  of `*`, `_` and custom delimiter characters. The bracket stack holds `[` and `![`. Emphasis
  is resolved when a link closes and at the end of the block. Adjacent Text nodes are merged
  last. The processor table and the set of special characters are built once, in `init`.
- `StaggeredDelimiterProcessor.kt` groups several delimiter processors for one character,
  told apart by their minimum run length.
- `DollarsInlineParser.kt` parses a math span.

The modules are:

| module | models |
|---|---|
| `Scanning` | the scanner: a text and a position, with `peek`, `next`, `matchMultiple`, `find` and `whitespace` |
| `Nodes` | the inline node tree; a Text node's identity is its `id` |
| `Processors`, `Registry` | delimiter processors and the processor table (`calculateDelimiterProcessors`, `addDelimiterProcessors`, `calculateSpecialCharacters`) |
| `Staggered` | `StaggeredDelimiterProcessor`, as a class proved against value functions on its processor list |
| `Flanking` | the can-open / can-close rules of `scanDelimiters` |
| `Stacks` | delimiter and bracket stack entries |
| `TextRuns` | text runs, trailing spaces and the hard / soft line-break decision |
| `Merge` | `mergeChildTextNodes`, as a walk proved against a recursive merge function |
| `Dollars` | `DollarsInlineParser.tryParse` |
| `Links` | the link syntax: label, destination, title, the inline form `(dest "title")` and the reference forms, as functions of the text |
| `LinkParsing` | `parseLinkDestination`, `parseLinkTitle`, `parseLinkLabel` and the inline-link branch of `parseCloseBracket`, proved against `Links` |
| `Parser` | `InlineParserImpl`: the class `InlineParser` and the node functions it uses |

Code the parser calls but that is not part of the model enters as the fields of the
`Externals.Collaborators` value, constrained only by `Externals.WellBehaved`. This covers:

- `LinkScanner`, `Escaping` and `Parsing`;
- the reference-definition lookup;
- the other inline content parsers;
- `DelimiterProcessor.process`.

The model does not cover I/O or source positions.

The two stacks are sequences from bottom to top. An entry's `previous` is the entry below it,
and a bracket's `previousDelimiter` is the height of the delimiter stack when the bracket was
opened. The sibling list of a node is a sequence of children, and `unlink` removes a Text
node from it by identity.

`Scanner.find(c)` moves the scanner to the character it finds, or to the end when
there is none. The tryParse loop relies on that move.

## Model

| member | source | states |
|---|---|---|
| `Registry.CalculateSpecialCharacters` | richtext-commonmark/src/commonJvmAndroid/kotlin/com/halilibo/richtext/commonmark/latex/InlineParserImpl.kt:722-738 | a character is special exactly when it is a delimiter character, an inline-parser trigger, `[`, `]`, `!` or the line feed |
| `Registry.CalculateDelimiterProcessors` | richtext-commonmark/src/commonJvmAndroid/kotlin/com/halilibo/richtext/commonmark/latex/InlineParserImpl.kt:740-750 | the table is the built-in `*` and `_` processors followed by the custom ones; on success it is well formed and its keys are `*`, `_` and every custom opening and closing character |
| `Registry.DefaultTable` | richtext-commonmark/src/commonJvmAndroid/kotlin/com/halilibo/richtext/commonmark/latex/InlineParserImpl.kt:740-747 | without custom processors the table maps `*` and `_` to their emphasis processors and nothing else |
| `Registry.AddDelimiterProcessors` | richtext-commonmark/src/commonJvmAndroid/kotlin/com/halilibo/richtext/commonmark/latex/InlineParserImpl.kt:752-779 | the registration loop computes exactly the specification `AddAll`, stopping at the first conflict |
| `Registry.AddProcessorSound` | richtext-commonmark/src/commonJvmAndroid/kotlin/com/halilibo/richtext/commonmark/latex/InlineParserImpl.kt:756-778 | a successful registration keeps the table well formed, registers the processor under both of its characters, adds no other character and drops no processor already registered |
| `Registry.AddAllSound` | richtext-commonmark/src/commonJvmAndroid/kotlin/com/halilibo/richtext/commonmark/latex/InlineParserImpl.kt:752-779 | registering a list keeps the table well formed, its keys grow by exactly the processors' characters, and every processor stays reachable from both of its characters |
| `Registry.SymmetricConflict` | richtext-commonmark/src/commonJvmAndroid/kotlin/com/halilibo/richtext/commonmark/latex/InlineParserImpl.kt:759-770 | a processor with the same opening and closing character joins the symmetric entry already there (a staggered group) and fails exactly when a processor of the same minimum length is present |
| `Registry.CharacterConflict` | richtext-commonmark/src/commonJvmAndroid/kotlin/com/halilibo/richtext/commonmark/latex/InlineParserImpl.kt:771-788 | any other registration fails with "delimiter processor conflict" exactly when its opening or closing character is already taken |
| `Registry.GroupCharacters` | richtext-commonmark/src/commonJvmAndroid/kotlin/com/halilibo/richtext/commonmark/latex/StaggeredDelimiterProcessor.kt:11-17 | a staggered group answers for its own character on both sides, and so does every processor in it |
| `Staggered.StaggeredDelimiterProcessor.constructor` | richtext-commonmark/src/commonJvmAndroid/kotlin/com/halilibo/richtext/commonmark/latex/StaggeredDelimiterProcessor.kt:7-9 | a new group has no processors and minimum length 0 |
| `Staggered.StaggeredDelimiterProcessor.Add` | richtext-commonmark/src/commonJvmAndroid/kotlin/com/halilibo/richtext/commonmark/latex/StaggeredDelimiterProcessor.kt:23-41 | add inserts the processor into the list in front of the first smaller minimum length (the list stays strictly decreasing), or returns the conflicting processor and changes nothing |
| `Staggered.InsertSorted` | richtext-commonmark/src/commonJvmAndroid/kotlin/com/halilibo/richtext/commonmark/latex/StaggeredDelimiterProcessor.kt:23-41 | inserting into a strictly decreasing list keeps it strictly decreasing |
| `Staggered.InsertPermutation` | richtext-commonmark/src/commonJvmAndroid/kotlin/com/halilibo/richtext/commonmark/latex/StaggeredDelimiterProcessor.kt:23-41 | a successful insertion keeps every processor and adds exactly the new one |
| `Staggered.InsertConflict` | richtext-commonmark/src/commonJvmAndroid/kotlin/com/halilibo/richtext/commonmark/latex/StaggeredDelimiterProcessor.kt:35 | insertion fails exactly when a processor with the same minimum length is present, and the failure names that processor |
| `Staggered.InsertMinLength` | richtext-commonmark/src/commonJvmAndroid/kotlin/com/halilibo/richtext/commonmark/latex/StaggeredDelimiterProcessor.kt:37-40 | after an insertion the group minimum is the smaller of the new processor's minimum and the old group minimum |
| `Staggered.MinLengthIsSmallest` | richtext-commonmark/src/commonJvmAndroid/kotlin/com/halilibo/richtext/commonmark/latex/StaggeredDelimiterProcessor.kt:19-21 | getMinLength is the smallest minimum length in the list and belongs to one of its processors |
| `Staggered.StaggeredDelimiterProcessor.FindProcessor` | richtext-commonmark/src/commonJvmAndroid/kotlin/com/halilibo/richtext/commonmark/latex/StaggeredDelimiterProcessor.kt:43-50 | the search loop returns the first processor whose minimum length is at most the run length, else the first processor |
| `Staggered.FindProcessorBestFit` | richtext-commonmark/src/commonJvmAndroid/kotlin/com/halilibo/richtext/commonmark/latex/StaggeredDelimiterProcessor.kt:43-50 | the chosen processor has the largest minimum length not above the run length; when every minimum is above it, the first (largest) processor is chosen |
| `Staggered.StaggeredDelimiterProcessor.Process` | richtext-commonmark/src/commonJvmAndroid/kotlin/com/halilibo/richtext/commonmark/latex/StaggeredDelimiterProcessor.kt:52-54 | process returns, unchanged, what the processor chosen for the opener's length returns |
| `Flanking.FlankingMirror` | richtext-commonmark/src/commonJvmAndroid/kotlin/com/halilibo/richtext/commonmark/latex/InlineParserImpl.kt:504-507 | right-flanking is left-flanking with the characters before and after the run swapped |
| `Flanking.ClassifyMirror` | richtext-commonmark/src/commonJvmAndroid/kotlin/com/halilibo/richtext/commonmark/latex/InlineParserImpl.kt:508-516 | for `_` and for a symmetric processor, a run can open exactly when its mirror image can close |
| `Flanking.ClassifyAtEnds` | richtext-commonmark/src/commonJvmAndroid/kotlin/com/halilibo/richtext/commonmark/latex/InlineParserImpl.kt:498-516 | END counts as whitespace and punctuation, so a run at the end of the text never opens and one at the start never closes |
| `Flanking.Intraword` | richtext-commonmark/src/commonJvmAndroid/kotlin/com/halilibo/richtext/commonmark/latex/InlineParserImpl.kt:510-516 | between two word characters `_` neither opens nor closes while a symmetric character such as `*` does both |
| `Flanking.ClassifyNeedsFlanking` | richtext-commonmark/src/commonJvmAndroid/kotlin/com/halilibo/richtext/commonmark/latex/InlineParserImpl.kt:508-516 | a run opens only if it is left-flanking and closes only if it is right-flanking |
| `TextRuns.TrailingCount` | richtext-commonmark/src/commonJvmAndroid/kotlin/com/halilibo/richtext/commonmark/latex/InlineParserImpl.kt:452 | the count covers only characters that are stripped, and it is maximal |
| `TextRuns.TrimEndSplit` | richtext-commonmark/src/commonJvmAndroid/kotlin/com/halilibo/richtext/commonmark/latex/InlineParserImpl.kt:450-459 | trimming splits a run into a kept prefix that does not end in a stripped character and a removed tail made only of stripped characters |
| `TextRuns.TrimEndIdempotent` | richtext-commonmark/src/commonJvmAndroid/kotlin/com/halilibo/richtext/commonmark/latex/InlineParserImpl.kt:450-459 | trimming twice removes nothing more |
| `TextRuns.TextRunResultShape` | richtext-commonmark/src/commonJvmAndroid/kotlin/com/halilibo/richtext/commonmark/latex/InlineParserImpl.kt:447-459 | a run before a line feed loses only trailing spaces and records exactly how many; a run at END loses only trailing spaces and tabs and records nothing; any other run is kept whole |
| `TextRuns.BreaksCorrectedIntended` | richtext-commonmark/src/commonJvmAndroid/kotlin/com/halilibo/richtext/commonmark/latex/InlineParserImpl.kt:422-430 | with the count consumed by each line break, every line feed is hard exactly when the text run right before it ended with at least two spaces |
| `TextRuns.StaleTrailingSpaces` | richtext-commonmark/src/commonJvmAndroid/kotlin/com/halilibo/richtext/commonmark/latex/InlineParserImpl.kt:422-453 | as written, a count of two left by an earlier line makes a later line feed after a delimiter run a hard break too |
| `Scanning.Scanner.MatchMultiple` | richtext-commonmark/src/commonJvmAndroid/kotlin/com/halilibo/richtext/commonmark/latex/DollarsInlineParser.kt:13 | matchMultiple consumes exactly the maximal run of the character and returns its length |
| `Scanning.RunLengthRun` | richtext-commonmark/src/commonJvmAndroid/kotlin/com/halilibo/richtext/commonmark/latex/InlineParserImpl.kt:480 | the run counted is made of the character and is maximal |
| `Scanning.Scanner.Find` | richtext-commonmark/src/commonJvmAndroid/kotlin/com/halilibo/richtext/commonmark/latex/DollarsInlineParser.kt:16 | find moves to the next occurrence and returns how far it moved, or moves to END and returns -1 |
| `Scanning.Scanner.Whitespace` | richtext-commonmark/src/commonJvmAndroid/kotlin/com/halilibo/richtext/commonmark/latex/InlineParserImpl.kt:251 | whitespace skips exactly the maximal run of scanner whitespace |
| `Scanning.Scanner.NextIf` | richtext-commonmark/src/commonJvmAndroid/kotlin/com/halilibo/richtext/commonmark/latex/InlineParserImpl.kt:399 | next(c) advances by one exactly when the next character is c |
| `Dollars.ClosingRunIsFirstMatch` | richtext-commonmark/src/commonJvmAndroid/kotlin/com/halilibo/richtext/commonmark/latex/DollarsInlineParser.kt:16-19 | the closing run is the first later `$` run of exactly the opening length; runs of other lengths are skipped; without one there is no later run of that length |
| `Dollars.FindClosingRun` | richtext-commonmark/src/commonJvmAndroid/kotlin/com/halilibo/richtext/commonmark/latex/DollarsInlineParser.kt:16-19 | the find/matchMultiple loop computes the closing run, and when found the scanner stands right after it |
| `Dollars.LatexContentStrip` | richtext-commonmark/src/commonJvmAndroid/kotlin/com/halilibo/richtext/commonmark/latex/DollarsInlineParser.kt:22-31 | the literal is the content with line feeds turned into spaces, less one space on each side exactly when it has at least three characters, both ends are a space or a line feed, and some character is neither |
| `Dollars.LatexContentNoNewline` | richtext-commonmark/src/commonJvmAndroid/kotlin/com/halilibo/richtext/commonmark/latex/DollarsInlineParser.kt:23 | the literal never holds a line feed |
| `Dollars.PaddingRemoved` | richtext-commonmark/src/commonJvmAndroid/kotlin/com/halilibo/richtext/commonmark/latex/DollarsInlineParser.kt:27-30 | padding a one-line, not all-space content with one space on each side is undone |
| `Dollars.UnpaddedKept` | richtext-commonmark/src/commonJvmAndroid/kotlin/com/halilibo/richtext/commonmark/latex/DollarsInlineParser.kt:27-31 | a one-line content that does not start with a space is kept as it is |
| `Dollars.TryParseResult` | richtext-commonmark/src/commonJvmAndroid/kotlin/com/halilibo/richtext/commonmark/latex/DollarsInlineParser.kt:10-42 | called at a `$`, the result always moves the position forward and stays inside the text: tryParse never declines |
| `Dollars.TryParseFound` | richtext-commonmark/src/commonJvmAndroid/kotlin/com/halilibo/richtext/commonmark/latex/DollarsInlineParser.kt:19-34 | with a closing run at j the node is a Latex node of the content between the runs and the position is just after the closing run |
| `Dollars.TryParseNotFound` | richtext-commonmark/src/commonJvmAndroid/kotlin/com/halilibo/richtext/commonmark/latex/DollarsInlineParser.kt:38-41 | without a closing run the node is a Text node holding exactly the opening run and the position is just after it |
| `Dollars.TryParse` | richtext-commonmark/src/commonJvmAndroid/kotlin/com/halilibo/richtext/commonmark/latex/DollarsInlineParser.kt:10-42 | tryParse on the scanner produces exactly that node and position |
| `Merge.MergeIfNeeded` | richtext-commonmark/src/commonJvmAndroid/kotlin/com/halilibo/richtext/commonmark/latex/InlineParserImpl.kt:686-713 | a pending run of Text siblings becomes its first node with the run's literals concatenated in order; a run of one is kept; no run gives nothing |
| `Merge.MergeNonText` | richtext-commonmark/src/commonJvmAndroid/kotlin/com/halilibo/richtext/commonmark/latex/InlineParserImpl.kt:669-676 | a non-Text node has its own children merged |
| `Merge.MergeChildTextNodes` | richtext-commonmark/src/commonJvmAndroid/kotlin/com/halilibo/richtext/commonmark/latex/InlineParserImpl.kt:646-684 | the sibling walk computes the merge specification `MergeList` |
| `Merge.MergeListWellMerged` | richtext-commonmark/src/commonJvmAndroid/kotlin/com/halilibo/richtext/commonmark/latex/InlineParserImpl.kt:646-713 | after merging no two adjacent siblings are Text, at any depth |
| `Merge.MergeListTextContent` | richtext-commonmark/src/commonJvmAndroid/kotlin/com/halilibo/richtext/commonmark/latex/InlineParserImpl.kt:686-712 | merging keeps the text content: every literal character stays, in order |
| `Merge.MergeListFixpoint` | richtext-commonmark/src/commonJvmAndroid/kotlin/com/halilibo/richtext/commonmark/latex/InlineParserImpl.kt:655-684 | a forest with no adjacent Text siblings is left unchanged |
| `Merge.MergeListIdempotent` | richtext-commonmark/src/commonJvmAndroid/kotlin/com/halilibo/richtext/commonmark/latex/InlineParserImpl.kt:646-684 | merging twice is merging once |
| `Nodes.UnlinkLeaves` | richtext-commonmark/src/commonJvmAndroid/kotlin/com/halilibo/richtext/commonmark/latex/InlineParserImpl.kt:584 | unlinking a delimiter character removes exactly that Text node and no other leaf |
| `Nodes.OnlyRemovesKeepsOrder` | richtext-commonmark/src/commonJvmAndroid/kotlin/com/halilibo/richtext/commonmark/latex/InlineParserImpl.kt:302-307 | a deletion of Text nodes keeps every other leaf, in the same order, and adds none: the nodes moved into a link keep their order |
| `Nodes.OnlyRemovesTrans` | richtext-commonmark/src/commonJvmAndroid/kotlin/com/halilibo/richtext/commonmark/latex/InlineParserImpl.kt:581-589 | two deletions in a row are one deletion, so the unlinks of successive matched pairs compose |
| `Nodes.OnlyRemovesNothing` | richtext-commonmark/src/commonJvmAndroid/kotlin/com/halilibo/richtext/commonmark/latex/InlineParserImpl.kt:318-320 | a deletion that may remove nothing leaves the leaves exactly as they were |
| `Parser.TextRunEnd` | richtext-commonmark/src/commonJvmAndroid/kotlin/com/halilibo/richtext/commonmark/latex/InlineParserImpl.kt:437-445 | a text run stops at the first special character or at END and holds no special character |
| `Links.LinkLabelAt` | richtext-commonmark/src/commonJvmAndroid/kotlin/com/halilibo/richtext/commonmark/latex/InlineParserImpl.kt:398-420 | a label is found exactly when `[` is there, its content scans, `]` follows and the content has at most 999 characters; it is then exactly the text between the brackets |
| `Links.DestinationAt` | richtext-commonmark/src/commonJvmAndroid/kotlin/com/halilibo/richtext/commonmark/latex/InlineParserImpl.kt:361-378 | a destination is found exactly when the scan matches; it ends inside the text |
| `Links.TitleAt` | richtext-commonmark/src/commonJvmAndroid/kotlin/com/halilibo/richtext/commonmark/latex/InlineParserImpl.kt:383-393 | a title is found exactly when the scan matches; it spans at least its two enclosing characters |
| `Links.LinkTailAt` | richtext-commonmark/src/commonJvmAndroid/kotlin/com/halilibo/richtext/commonmark/latex/InlineParserImpl.kt:255-269 | a complete tail ends just after a `)` |
| `Links.InlineLinkAt` | richtext-commonmark/src/commonJvmAndroid/kotlin/com/halilibo/richtext/commonmark/latex/InlineParserImpl.kt:249-270 | a complete inline form starts with `(` and ends just after `)` |
| `Links.LinkBodyAt` | richtext-commonmark/src/commonJvmAndroid/kotlin/com/halilibo/richtext/commonmark/latex/InlineParserImpl.kt:251-270 | a complete form after `(` and its whitespace is a destination and a tail and ends just after `)` |
| `Parser.Wrap` | richtext-commonmark/src/commonJvmAndroid/kotlin/com/halilibo/richtext/commonmark/latex/InlineParserImpl.kt:552 | the wrapping done by a processor moves nodes but keeps every leaf, in order |
| `LinkParsing.ParseLinkDestination` | richtext-commonmark/src/commonJvmAndroid/kotlin/com/halilibo/richtext/commonmark/latex/InlineParserImpl.kt:361-378 | returns the unescaped destination without angle brackets and ends where the scan ends; on failure it is modelled as consuming nothing (see Left out) |
| `LinkParsing.ParseLinkTitle` | richtext-commonmark/src/commonJvmAndroid/kotlin/com/halilibo/richtext/commonmark/latex/InlineParserImpl.kt:383-393 | returns the unescaped title without its enclosing characters; nothing is consumed on failure |
| `LinkParsing.ParseLinkLabel` | richtext-commonmark/src/commonJvmAndroid/kotlin/com/halilibo/richtext/commonmark/latex/InlineParserImpl.kt:398-420 | returns exactly `LinkLabelAt`; on success the position is just after `]` |
| `LinkParsing.ParseLinkTail` | richtext-commonmark/src/commonJvmAndroid/kotlin/com/halilibo/richtext/commonmark/latex/InlineParserImpl.kt:256-262 | after the destination: a title only after whitespace, optional whitespace, then `)` |
| `LinkParsing.ParseLinkBody` | richtext-commonmark/src/commonJvmAndroid/kotlin/com/halilibo/richtext/commonmark/latex/InlineParserImpl.kt:252-269 | after `(` and its whitespace the destination and title are exactly those of `InlineLinkAt`, and the position is just after `)`; an incomplete form yields neither |
| `LinkParsing.ParseInlineLink` | richtext-commonmark/src/commonJvmAndroid/kotlin/com/halilibo/richtext/commonmark/latex/InlineParserImpl.kt:249-270 | the result is exactly `InlineLinkAt`: a complete form gives its destination and title and ends after `)`; otherwise nothing is consumed and there is neither destination nor title |
| `Parser.InlineParser.constructor` | richtext-commonmark/src/commonJvmAndroid/kotlin/com/halilibo/richtext/commonmark/latex/InlineParserImpl.kt:54-68 | a character is special exactly when it has a delimiter processor, starts an inline content parser (backslash, backtick, `&`, `<`, `$`) or is `[`, `]`, `!` or the line feed |
| `Parser.InlineParser.Parse` | richtext-commonmark/src/commonJvmAndroid/kotlin/com/halilibo/richtext/commonmark/latex/InlineParserImpl.kt:77-101 | parsing consumes the whole input, empties the delimiter stack and leaves no two adjacent Text siblings |
| `Parser.InlineParser.ParseInline` | richtext-commonmark/src/commonJvmAndroid/kotlin/com/halilibo/richtext/commonmark/latex/InlineParserImpl.kt:114-162 | returns nothing exactly at END and otherwise consumes at least one character; `[` gives a Text `[` and one more bracket, `!` a Text `![` or `!`, `]` one Text, Link or Image node, a line feed a hard break after at least two trailing spaces and a soft one otherwise; any other character gives what ParseOther states |
| `Parser.InlineParser.ParseOther` | richtext-commonmark/src/commonJvmAndroid/kotlin/com/halilibo/richtext/commonmark/latex/InlineParserImpl.kt:125-161 | a non-special character gives a text run up to the next special character; a special one gives its content parser's node when it matches (at `$` always Dollars.TryParseResult's); else a run long enough for its processor gives one Text per character and one new stack entry; else a text run |
| `Parser.InlineParser.ParseContentOrDelimiters` | richtext-commonmark/src/commonJvmAndroid/kotlin/com/halilibo/richtext/commonmark/latex/InlineParserImpl.kt:130-158 | the content parser's node and end when it matches; else the delimiter run when it is long enough; else nothing, with the position, stack and identities unchanged |
| `Parser.InlineParser.ParseContent` | richtext-commonmark/src/commonJvmAndroid/kotlin/com/halilibo/richtext/commonmark/latex/InlineParserImpl.kt:130-150 | at `$` the node and end position are exactly Dollars.TryParseResult's; at another content-parser character they are the content parser's, or there is no node and the position is restored; a Text node gets the next fresh identity |
| `Parser.InlineParser.ScanDelimiters` | richtext-commonmark/src/commonJvmAndroid/kotlin/com/halilibo/richtext/commonmark/latex/InlineParserImpl.kt:472-519 | a run shorter than the minimum length gives nothing and restores the position; otherwise the whole run is consumed, one Text node per character, with the flags `Classify` gives for the characters around it |
| `Parser.InlineParser.ParseDelimiters` | richtext-commonmark/src/commonJvmAndroid/kotlin/com/halilibo/richtext/commonmark/latex/InlineParserImpl.kt:167-186 | a run shorter than the minimum length gives nothing and changes nothing; otherwise the whole run is consumed, one Text node per character with consecutive fresh identities, and one entry goes on top of the unchanged stack, holding those identities, the run length and the canOpen/canClose flags that Classify gives for the characters around the run |
| `Parser.InlineParser.AddBracket` | richtext-commonmark/src/commonJvmAndroid/kotlin/com/halilibo/richtext/commonmark/latex/InlineParserImpl.kt:347-352 | the bracket goes on top and the previous top is marked as having a bracket after it |
| `Parser.InlineParser.RemoveLastBracket` | richtext-commonmark/src/commonJvmAndroid/kotlin/com/halilibo/richtext/commonmark/latex/InlineParserImpl.kt:354-356 | exactly the top bracket is popped |
| `Parser.InlineParser.ParseOpenBracket` | richtext-commonmark/src/commonJvmAndroid/kotlin/com/halilibo/richtext/commonmark/latex/InlineParserImpl.kt:191-202 | `[` gives a Text node `[` with a fresh identity and pushes a link opener recording its positions and the delimiter stack height; the previous top bracket is marked as having a bracket after it and the others are unchanged |
| `Parser.InlineParser.ParseBang` | richtext-commonmark/src/commonJvmAndroid/kotlin/com/halilibo/richtext/commonmark/latex/InlineParserImpl.kt:208-221 | `![` gives a Text node `![` and pushes an image opener, marking the previous top as having a bracket after it; a lone `!` is a Text node `!` and the stack is unchanged |
| `Parser.InlineParser.ParseReference` | richtext-commonmark/src/commonJvmAndroid/kotlin/com/halilibo/richtext/commonmark/latex/InlineParserImpl.kt:272-295 | the destination and title are those of the definition Links.ReferenceAt finds, or none; the position ends after the second label when there is one and just after the `]` otherwise |
| `Links.ReferenceAt` | richtext-commonmark/src/commonJvmAndroid/kotlin/com/halilibo/richtext/commonmark/latex/InlineParserImpl.kt:272-295 | the key looked up is the second label, or the first label when the second is missing or empty and no bracket was opened inside; a missing second label after an inner bracket looks nothing up; the end is after the second label when there is one, otherwise just after the `]` |
| `Links.LinkTargetAt` | richtext-commonmark/src/commonJvmAndroid/kotlin/com/halilibo/richtext/commonmark/latex/InlineParserImpl.kt:245-295 | a complete inline form gives the destination, title and end; otherwise the definition Links.ReferenceAt finds gives them, with its end; otherwise there is no target |
| `Parser.InlineParser.DisallowLinkOpeners` | richtext-commonmark/src/commonJvmAndroid/kotlin/com/halilibo/richtext/commonmark/latex/InlineParserImpl.kt:325-335 | every link opener on the stack is disallowed; image openers are unchanged |
| `Parser.InlineParser.ParseDestination` | richtext-commonmark/src/commonJvmAndroid/kotlin/com/halilibo/richtext/commonmark/latex/InlineParserImpl.kt:245-295 | the destination, title and end position are Links.LinkTargetAt's: the inline form when one follows the `]`, otherwise the reference; with neither there is no destination and no title |
| `Parser.InlineParser.ParseCloseBracket` | richtext-commonmark/src/commonJvmAndroid/kotlin/com/halilibo/richtext/commonmark/latex/InlineParserImpl.kt:227-345 | the position always moves forward. With no opener or a disallowed one the `]` is Text, that opener is popped and nothing else changes. With an allowed opener the result is a Link or Image exactly when Links.LinkTargetAt finds a target, with its destination, title and end; its effect is then `LinkMade`: the children are resolved from the block's nodes after the opener's Text node, their leaves kept in order less delimiter characters,, the delimiter stack is cut back to the opener's height, the opener is popped (for a link every link opener below is disallowed) and the block keeps the nodes before the opener. Otherwise the `]` is Text, the opener is popped and the position is just after the `]` |
| `Parser.InlineParser.CloseAllowed` | richtext-commonmark/src/commonJvmAndroid/kotlin/com/halilibo/richtext/commonmark/latex/InlineParserImpl.kt:245-344 | for an allowed opener: a Link or Image exactly when Links.LinkTargetAt finds a target, with its destination, title and end, and the effect `LinkMade`; otherwise a Text `]` with the opener popped |
| `Parser.InlineParser.ScanTarget` | richtext-commonmark/src/commonJvmAndroid/kotlin/com/halilibo/richtext/commonmark/latex/InlineParserImpl.kt:228-295 | after stepping over the `]`, the destination and title are Links.LinkTargetAt's, and the position its end when there is one |
| `Parser.InlineParser.Complete` | richtext-commonmark/src/commonJvmAndroid/kotlin/com/halilibo/richtext/commonmark/latex/InlineParserImpl.kt:297-344 | with a destination the node is a Link or Image with it and the effect `LinkMade`; without one the opener is popped, the position is just after the `]` and the node is a Text `]` |
| `Parser.InlineParser.ResolveContent` | richtext-commonmark/src/commonJvmAndroid/kotlin/com/halilibo/richtext/commonmark/latex/InlineParserImpl.kt:318-320 | the content is the merge of a node list whose leaves are the input's leaves in the same order, less some Text nodes of the stack's characters above the bottom; so with no such characters the text is kept (Parser.ResolvedFromKeepsText); the stack is cut back to the bottom; no two adjacent Text siblings remain |
| `Parser.ResolvedFromKeepsText` | richtext-commonmark/src/commonJvmAndroid/kotlin/com/halilibo/richtext/commonmark/latex/InlineParserImpl.kt:318-320 | resolving and merging link content that holds no delimiter characters keeps its text, in order |
| `Parser.InlineParser.MakeLinkOrImage` | richtext-commonmark/src/commonJvmAndroid/kotlin/com/halilibo/richtext/commonmark/latex/InlineParserImpl.kt:297-337 | a Link or Image, by the opener's flag, with the destination and title found, and the whole effect `LinkMade` states: children resolved from the block's nodes after the opener's Text node, leaves kept in order less delimiter characters, stack cut back to the opener's height, opener popped, link openers below disallowed for a link, block cut before the opener |
| `Parser.InlineParser.LinkContent` | richtext-commonmark/src/commonJvmAndroid/kotlin/com/halilibo/richtext/commonmark/latex/InlineParserImpl.kt:301-320 | the children are resolved from the block's nodes after the opener's Text node, keeping their leaves in order, the block keeps the nodes before it and the stack is cut back to the bottom |
| `Parser.InlineParser.TakeContent` | richtext-commonmark/src/commonJvmAndroid/kotlin/com/halilibo/richtext/commonmark/latex/InlineParserImpl.kt:301-307 | the nodes after the Text node `id` are handed over and the block keeps the nodes before it |
| `Parser.InlineParser.PopOpener` | richtext-commonmark/src/commonJvmAndroid/kotlin/com/halilibo/richtext/commonmark/latex/InlineParserImpl.kt:323-335 | the top bracket is popped and, for a link, every link opener below it is disallowed; the bracket stack stays ordered under the popped bracket's delimiter height |
| `Stacks.PopForLink` | richtext-commonmark/src/commonJvmAndroid/kotlin/com/halilibo/richtext/commonmark/latex/InlineParserImpl.kt:323-335 | popping a made link's bracket, and disallowing the link openers below it, keeps every bracket's height at most the popped one's and keeps the heights ordered |
| `Parser.InlineParser.ParseLineBreak` | richtext-commonmark/src/commonJvmAndroid/kotlin/com/halilibo/richtext/commonmark/latex/InlineParserImpl.kt:422-430 | a line feed after at least two trailing spaces is a hard break, any other a soft one; resetting the count to zero is the correction listed under Findings (the Kotlin code never resets it) |
| `Parser.InlineParser.ParseText` | richtext-commonmark/src/commonJvmAndroid/kotlin/com/halilibo/richtext/commonmark/latex/InlineParserImpl.kt:435-464 | the run reaches the next special character or END and is trimmed and counted as `TextRunResult` says |
| `Parser.InlineParser.RemoveDelimiter` | richtext-commonmark/src/commonJvmAndroid/kotlin/com/halilibo/richtext/commonmark/latex/InlineParserImpl.kt:634-644 | the entry leaves the stack and its neighbours close up; nothing else changes |
| `Parser.InlineParser.RemoveDelimitersBetween` | richtext-commonmark/src/commonJvmAndroid/kotlin/com/halilibo/richtext/commonmark/latex/InlineParserImpl.kt:611-618 | exactly the entries strictly between opener and closer are removed |
| `Parser.InlineParser.FindOpener` | richtext-commonmark/src/commonJvmAndroid/kotlin/com/halilibo/richtext/commonmark/latex/InlineParserImpl.kt:545-559 | the opener found is the nearest candidate above the floor (stack bottom or lower bound for the character) that the processor accepts; when none, every candidate was refused and "potential" says whether any existed |
| `Parser.InlineParser.UseDelimiters` | richtext-commonmark/src/commonJvmAndroid/kotlin/com/halilibo/richtext/commonmark/latex/InlineParserImpl.kt:581-589 | the used characters leave the tail of the opener's list and the head of the closer's, and their Text nodes are unlinked after the wrap |
| `Parser.InlineParser.RemoveLastCharacters` | richtext-commonmark/src/commonJvmAndroid/kotlin/com/halilibo/richtext/commonmark/latex/InlineParserImpl.kt:582-585 | the opener keeps all but its last `used` characters, and those Text nodes are unlinked, last first |
| `Parser.InlineParser.RemoveFirstCharacters` | richtext-commonmark/src/commonJvmAndroid/kotlin/com/halilibo/richtext/commonmark/latex/InlineParserImpl.kt:586-589 | the closer keeps all but its first `used` characters, and those Text nodes are unlinked, first first |
| `Parser.UnlinkEachLeaves` | richtext-commonmark/src/commonJvmAndroid/kotlin/com/halilibo/richtext/commonmark/latex/InlineParserImpl.kt:586-589 | unlinking a list of delimiter characters removes only Text nodes with those identities, and no other leaf |
| `Parser.UnlinkEachBackwardLeaves` | richtext-commonmark/src/commonJvmAndroid/kotlin/com/halilibo/richtext/commonmark/latex/InlineParserImpl.kt:581-585 | the same when the characters are unlinked from the last one back |
| `Parser.UseLeaves` | richtext-commonmark/src/commonJvmAndroid/kotlin/com/halilibo/richtext/commonmark/latex/InlineParserImpl.kt:552-589 | using a matched pair (the wrap, then both unlink loops) removes only Text nodes of the two runs' characters; every other leaf stays |
| `Parser.InlineParser.FirstAbove` | richtext-commonmark/src/commonJvmAndroid/kotlin/com/halilibo/richtext/commonmark/latex/InlineParserImpl.kt:524-528 | the first closer considered is the entry just above the stack bottom |
| `Parser.InlineParser.ResolvePair` | richtext-commonmark/src/commonJvmAndroid/kotlin/com/halilibo/richtext/commonmark/latex/InlineParserImpl.kt:581-602 | the new stack is the entries below the opener, the opener less its last `used` characters if any remain, the closer less its first `used` characters if any remain, and the entries above the closer; the scan goes on from the closer's new place, or the entry after it; only Text nodes of delimiter characters above the bottom leave the node list |
| `Parser.InlineParser.UsePair` | richtext-commonmark/src/commonJvmAndroid/kotlin/com/halilibo/richtext/commonmark/latex/InlineParserImpl.kt:581-589 | the opener loses its last `used` characters and the closer its first `used`; only Text nodes of the two runs' characters leave the node list |
| `Parser.InlineParser.CutPair` | richtext-commonmark/src/commonJvmAndroid/kotlin/com/halilibo/richtext/commonmark/latex/InlineParserImpl.kt:591-602 | the entries between the pair go, and the opener and the closer each stay exactly when they have characters left; the next index is just above the kept opener |
| `Stacks.IdsWithinCutPair` | richtext-commonmark/src/commonJvmAndroid/kotlin/com/halilibo/richtext/commonmark/latex/InlineParserImpl.kt:591-602 | cutting the pair keeps the entries below the bottom and keeps every remaining character among the stack's characters |
| `Parser.InlineParser.ProcessDelimiters` | richtext-commonmark/src/commonJvmAndroid/kotlin/com/halilibo/richtext/commonmark/latex/InlineParserImpl.kt:521-609 | afterwards the stack top is the stack bottom with the entries below untouched, and only Text nodes of delimiter characters above the bottom have left the node list |

## Left out

- Source spans (`includeSourceSpans`, `SourceSpans`, `getSource` positions) are not modelled. A Text node carries only its identity and literal.
- Characters are Dafny `char`s. The scanner's code-point handling (`peekCodePoint`, surrogate pairs) and the real character classes of `Parsing` are left out; punctuation and whitespace enter as predicates.
- `LinkScanner`, `Escaping.unescapeString`, the link reference definitions and the inline content parsers for backslash escapes, code spans, entities, autolinks and raw HTML are not part of this model. They are collaborator functions with only the bounds in `WellBehaved`.
- LinkParsing.ParseLinkDestination: a destination that fails to scan is modelled as consuming nothing. `LinkScanner.scanLinkDestination` can stop part-way, for instance inside an unterminated `<abc`; the only caller then resets the position to just after the `]` (InlineParserImpl.kt:253-254), so the parse is the same.
- LinkParsing.ParseLinkTitle: a title that fails to scan is modelled as consuming nothing. commonmark-java's `scanLinkTitle` can leave the scanner part-way through before the `whitespace()` / `next(')')` that follows, and that position is not modelled.
- `DelimiterProcessor.process` of the emphasis and custom processors is not part of this model. What a processor returns is a function of its identity and the two runs, bounded by `ProcessBounded`. The nodes it builds are `Parser.Wrap`: the nodes between the pair move into one `Delimited` node.
- Parser.InlineParser.ParseInline: for `[`, `!` and `]` it states the node returned (for `]` only its kind) and not the whole new state; ParseOpenBracket, ParseBang and ParseCloseBracket, which it calls, state that.
- Parser.InlineParser.ProcessDelimiters: states the stack effect and that only the Text nodes of delimiter characters above the stack bottom leave the node list. It does not state the exact tree the matched pairs build.
- Parser.InlineParser.Parse: states that the whole input is consumed, that the delimiter stack ends empty and that the children are merged. It does not relate the children to the input text.
- Parser.InlineParser.ParseReference: the normalisation of the label is inside the lookup collaborator.
- Parser.InlineParser.FirstAbove: the walk down the linked stack becomes index arithmetic, so its contract only says where it stops.
- The order of sibling updates done through object references (`insertAfter`, `appendChild`, `unlink` on linked nodes) becomes rebuilt sequences. Aliasing between nodes is not modelled.
- The `Latex` node class, the `LatexExtension` registration, the renderers and the rest of the repository are outside the inline parser and are not part of this model.
- `IllegalArgumentException` from `addDelimiterProcessors` and `StaggeredDelimiterProcessor.add` becomes the `ConfigError` value or the returned conflicting processor.

## Findings

| source | as written | input that shows it | evidently intended | confidence | as-written member | corrected member |
|---|---|---|---|---|---|---|
| richtext-commonmark/src/commonJvmAndroid/kotlin/com/halilibo/richtext/commonmark/latex/InlineParserImpl.kt:422-430 | `parseLineBreak` reads `trailingSpaces` but never resets it, and the count is set only by a text run that stops before a line feed | `a  \n*\nc`: the first line feed follows two trailing spaces; the second follows a delimiter run yet sees the stale count 2 and also becomes a hard line break | a line break uses the spaces of the text run right before it, so the second line feed is soft | not executed | `TextRuns.StaleTrailingSpaces` | `TextRuns.BreaksCorrectedIntended` (the reset is in `Parser.InlineParser.ParseLineBreak`) |
