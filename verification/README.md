# The C Markdown engine, verified

This project models the vendored cmark-gfm engine (`swift-markdown-ui/Sources/cmark-gfm`): the inline parser, the block parser, the
node tree with its iterator, the reference map, and the byte-level codecs. Code that changes things in place is modelled
as classes, arrays and loops and is tied to functions on values; what the engine promises is proved about those functions.

- **Inlines.** `Emphasis` is `process_emphasis` on values: siblings left and right of the closer, and the table of lower
  bounds. `EmphasisTheorems`, `Pruning` and `PruningExact` prove what it keeps. `DelimiterList`, `InsertEmphasis` and `EmphasisLoop` are
  the doubly linked list and the loops over it, equal to the functions on values; `EmphNodes` is the step that builds a node, on
  the sibling pointers. `InlineParse`, `InlineInvariant` and
  `InlineRuns` add the bracket stack; `BracketList` and `InlineSubject` are its linked form. `CodeSpans`, `CodeText`,
  `CodeRoundTrip`, `CodeScanner` and `CodeRender` are code spans, parsed and rendered.
- **Blocks.** `LineSplitter` cuts buffers into lines, `Columns` and `LineCursor` count columns through tabs, `BlockScan`
  holds the hand-written scanners, and `BlockTree` and `OpenBlocks` are the state machine of open blocks. `BlockLines` says
  on values what a line does to the open blocks; `OpenBlocks` is proved equal to it, `BlockLaws`, `QuoteLaw`,
  `ItemLaw` and `TabLaw` (over `LineShift` and `NestLaw`) prove what its runs obey, and `DocumentFeed` puts the parts together.
- **Tree.** `NodeTree` is the pointer surgery, `TreeWalk` the iterator and the freeing of subtrees, `TreeShape` ties both
  to the consistency of a tree, `TreeCheck` is the walk that checks and repairs it, and `TextNodes`
  joins adjacent text nodes during a walk.
- **The rest.** `LabelMap` is the reference map; `Utf8`, `Html` and `StrBuf` are the codecs and the byte buffer.

Where the code falls short of what one would expect of it, the exact condition is proved:

- `cmark_node_check` does not look at the last child of a childless node: `TreeCheck.Check` says what zero errors mean, and
  `TreeCheck.StaleLastChild` is a broken tree that passes.
- The lower bounds of `process_emphasis` ignore whether the closer can open. A search is exact exactly as
  `EmphasisTheorems.PrunedSearchExact` says, all searches for a class are without a clash in it, and `*a**b**c**` is a run
  that differs. The finished tree is that of the full walks exactly if every search is exact (`PruningExact.TreesAgree`).
- The memo of `scan_to_closing_backticks` refuses a valid closer once a successful scan has passed a run of its length;
  `CodeSpans.AnswerExact` is the exact condition over whole runs and `CodeSpans.MemoRefusesCodeSpan` an input. So a rendered
  code span is not always read back: `CodeRoundTrip.RoundTripAfter` and `CodeRoundTrip.RenderingRefused`.
- An empty buffer between the two bytes of a CRLF makes `S_parser_feed` see two line endings.
- `S_normalize_code` tests bytes it has already overwritten, and so differs from section 6.3 of the GitHub Flavored
  Markdown Spec exactly for blank content with a CRLF.
- `cmark_node_insert_before` and `cmark_node_insert_after` do not refuse a node as its own sibling, and then break the
  tree: `NodeTree.InsertBefore` and `NodeTree.InsertAfter` give the condition.
- `cmark_utf8proc_encode_char` writes one invalid byte for U+FFFE and for U+FFFF.

The container rules of sections 5.1 and 5.2 fail where a tab is measured, as it is narrower or wider behind a prefix:
`TabLaw.TabBreaksQuote` and `TabLaw.TabBreaksItem` are such lines. For one more line that begins with no marker the condition is
exact, over all runs of lines that come before (`TabLaw.QuoteExact`, `TabLaw.ItemExact`); where it fails, the lines before are one
line of nested bullets. The condition of the whole-run theorems `QuoteLaw.QuotedRun` and `ItemLaw.ItemRun`, no tab among the marks
at the start of a line (for an item: or whole tab stops), is sufficient; tabs in text are allowed.

Modelling choices:

- A character of a string stands for a byte, except in `Utf8`, where bytes are numbers. Integers are unbounded; the 32-bit
  ranges that matter are stated in `StrBuf.Buffer.Grow`, `StrBuf.Buffer.Put` and `Html.ReadDigits`. Allocation succeeds.
- A delimiter is known by its position in the input, which strictly grows; an entry of the bounds table that points at a
  freed delimiter stays comparable, as the pointer does. An emphasis node records its delimiter character, which the
  engine does not store, so that the source can be read back.
- The inline parser is driven by events: text, a delimiter run with its flanking, and brackets with the answers of the link
  scanners. Links are kept with their text and source, without their destinations.
- A block keeps its parent for life. Scanners generated into `scanners.c`, and the reference definitions at the start of a
  paragraph, are functions given to the block parser; where a law needs it, that they look only at what follows their
  position, or find nothing at a line ending or at a list marker, is a premise. `qsort` and label normalization are functions given to the map;
  `bsearch` is a halving loop.
- What a line does to the open blocks is a record of functions, chosen by what they satisfy (`BlockLines.Follows`) so that
  proofs about whole runs do not unfold them; `BlockLines.ProcessedExplicit` spells them out.

## Model

| member | source | states |
|---|---|---|
| `EmphasisTheorems.ProcessPreservesText` | swift-markdown-ui/Sources/cmark-gfm/inlines.c:634-789 | Reading the tree back (emphasis as its characters around its content) gives the text of the items, from any state of the main loop, pruned or not |
| `EmphasisTheorems.ResolvePreservesSource` | swift-markdown-ui/Sources/cmark-gfm/inlines.c:634-726 | The same for a whole call of `process_emphasis`: no character is lost, doubled or moved, however partly runs are used |
| `EmphasisTheorems.InsertText` | swift-markdown-ui/Sources/cmark-gfm/inlines.c:728-789 | One `S_insert_emph` step keeps the text |
| `Emphasis.StepShape` | swift-markdown-ui/Sources/cmark-gfm/inlines.c:657-721 | Every turn of the main loop lowers (characters left, delimiters ahead) and keeps all runs well formed, so the loop ends |
| `Emphasis.SearchIsNearest` | swift-markdown-ui/Sources/cmark-gfm/inlines.c:660-676 | The opener found is the nearest one above the bottom that the rule of three lets match; when none is found every match lies at or below the bottom |
| `EmphasisTheorems.SearchAbove` | swift-markdown-ui/Sources/cmark-gfm/inlines.c:663-664 | The backwards walk looks at nothing at or below a bottom that is on the list |
| `EmphasisTheorems.StepInv` | swift-markdown-ui/Sources/cmark-gfm/inlines.c:657-721 | Every turn keeps the invariant of `openers_bottom`: nothing at or below a live bottom suits a closer of its class that can also open |
| `EmphasisTheorems.Reachable` | swift-markdown-ui/Sources/cmark-gfm/inlines.c:634-721 | The invariant holds in every state a run can reach, for every number of turns |
| `EmphasisTheorems.PrunedSearchExact` | swift-markdown-ui/Sources/cmark-gfm/inlines.c:663-676 | In every state with the invariant the cut-off search equals the full walk if and only if a match lies above the bottom or no one-sided opener lies at or below it; always for a closer that can open or whose length is a multiple of three |
| `EmphasisTheorems.ProbeIsStrictest` | swift-markdown-ui/Sources/cmark-gfm/inlines.c:668-670 | An opener that suits the strictest closer of a class suits every closer of that class |
| `EmphasisTheorems.ProcessSaturates` | swift-markdown-ui/Sources/cmark-gfm/inlines.c:657-721 | When the loop ends, no delimiter it kept still has an opener to its left that it could close |
| `Pruning.PruningExactForClass` | swift-markdown-ui/Sources/cmark-gfm/inlines.c:634-721 | As long as no two-sided delimiter of a class can hide a one-sided opener from a later closer of the class, every search for a closer of that class is exact, in every state of the run, whatever happens to the other classes |
| `Pruning.PruningHarmless` | swift-markdown-ui/Sources/cmark-gfm/inlines.c:634-721 | Without such a clash in any class the pruned run builds exactly the tree of the unpruned algorithm |
| `PruningExact.TreesAgree` | swift-markdown-ui/Sources/cmark-gfm/inlines.c:634-726 | Over whole runs: the pruned run builds the tree of the unpruned algorithm if and only if every search of the run finds what the full walk finds |
| `PruningExact.ProcessKeepsTags` | swift-markdown-ui/Sources/cmark-gfm/inlines.c:634-726 | To the end of the run a mark of an emphasis stays one, and settled text stays text |
| `Pruning.PruningLosesEmphasis` | swift-markdown-ui/Sources/cmark-gfm/inlines.c:664-721 | On the delimiters of `*a**b**c**` the pruned run leaves the outer `*` as text and the full walk pairs it: pruning is not exact in general |
| `DelimiterList.Stack.Push` | swift-markdown-ui/Sources/cmark-gfm/inlines.c:499-513 | `push_delimiter`: the list stays a proper doubly linked list and its contents are the old ones with the new delimiter last |
| `DelimiterList.Stack.Remove` | swift-markdown-ui/Sources/cmark-gfm/inlines.c:474-488 | `remove_delimiter`: both neighbours and the tail are relinked; the contents are the old ones without that place |
| `InsertEmphasis.FindOpener` | swift-markdown-ui/Sources/cmark-gfm/inlines.c:660-676 | The pointer walk finds exactly the delimiter that the search on values finds, or none when it finds none |
| `InsertEmphasis.FreeBetween` | swift-markdown-ui/Sources/cmark-gfm/inlines.c:747-753 | Exactly the delimiters strictly between opener and closer leave the list |
| `InsertEmphasis.SpliceEmph` | swift-markdown-ui/Sources/cmark-gfm/inlines.c:755-786 | The siblings between the two runs become the children of the new node and empty runs go, as the step on values says |
| `InsertEmphasis.InsertEmph` | swift-markdown-ui/Sources/cmark-gfm/inlines.c:728-789 | The list keeps what is before the opener and behind the closer, a run used up leaves it, and the closer to go on with is returned |
| `EmphNodes.Splice` | swift-markdown-ui/Sources/cmark-gfm/inlines.c:755-765 | On the pointers of the nodes: what stands between opener and closer moves below the new node, which then stands behind the opener, and the tree stays consistent |
| `EmphNodes.InsertNodes` | swift-markdown-ui/Sources/cmark-gfm/inlines.c:728-786 | The texts lose the characters used, the nodes between move, empty texts are freed, and exactly the two lists of children change |
| `EmphNodes.InsertEmph` | swift-markdown-ui/Sources/cmark-gfm/inlines.c:728-786 | The siblings, read as inline content, show what the step on values leaves |
| `EmphasisLoop.Turn` | swift-markdown-ui/Sources/cmark-gfm/inlines.c:657-721 | One turn on the linked list equals one step on values and keeps everything at or below the stack bottom |
| `EmphasisLoop.FreeAbove` | swift-markdown-ui/Sources/cmark-gfm/inlines.c:722-725 | The clean-up leaves exactly the part of the list up to the stack bottom |
| `EmphasisLoop.ProcessEmphasis` | swift-markdown-ui/Sources/cmark-gfm/inlines.c:634-726 | The siblings become the tree on values, the list below the stack bottom is untouched, and the tail is the stack bottom |
| `BracketList.Brackets.Push` | swift-markdown-ui/Sources/cmark-gfm/inlines.c:515-529 | `push_bracket`: the entry below is marked, and the new one is on top |
| `BracketList.Brackets.Pop` | swift-markdown-ui/Sources/cmark-gfm/inlines.c:490-497 | `pop_bracket`: the contents lose their last entry |
| `BracketList.Brackets.DeactivateEarlier` | swift-markdown-ui/Sources/cmark-gfm/inlines.c:1242-1257 | The pointer loop deactivates as the loop on values that stops at the first inactive link opener |
| `InlineRuns.EarlyBreakIsFullWalk` | swift-markdown-ui/Sources/cmark-gfm/inlines.c:1245-1257 | On every stack that keeps the invariant the early `break` deactivates as a walk over the whole stack would |
| `InlineRuns.PreviousDelimitersLive` | swift-markdown-ui/Sources/cmark-gfm/inlines.c:515-529 | Each stacked bracket points at no delimiter or at one still on the list, and these positions never decrease up the stack |
| `InlineRuns.BottomCutsAtBracket` | swift-markdown-ui/Sources/cmark-gfm/inlines.c:1239-1240 | The delimiters above the top bracket's `previous_delimiter` are exactly those of the siblings behind the bracket |
| `InlineRuns.RunNeverStale` | swift-markdown-ui/Sources/cmark-gfm/inlines.c:1360-1461 | Live bottoms, their order, and the exactness of the early break, in every state a run of events can reach |
| `InlineRuns.LinksNeverNest` | swift-markdown-ui/Sources/cmark-gfm/inlines.c:1035-1260 | No bracket-built link holds another one at any depth, even through images and emphasis (section 6.6 of the GitHub Flavored Markdown Spec) |
| `InlineRuns.SourcePreserved` | swift-markdown-ui/Sources/cmark-gfm/inlines.c:1441-1461 | Reading the finished tree back gives the text that the run consumed, link ends and brackets included |
| `InlineInvariant.OnKeeps` | swift-markdown-ui/Sources/cmark-gfm/inlines.c:1360-1439 | Every event (text, run, opening or closing bracket) keeps the invariant of stack, activity and links |
| `InlineInvariant.OnBelow` | swift-markdown-ui/Sources/cmark-gfm/inlines.c:1360-1439 | Positions stay in input order over every event |
| `InlineInvariant.ResolveLinks` | swift-markdown-ui/Sources/cmark-gfm/inlines.c:634-726 | Resolving emphasis neither makes nor loses a link, nor nests one in another |
| `InlineInvariant.CloseKeeps` | swift-markdown-ui/Sources/cmark-gfm/inlines.c:1220-1257 | A bracket pair turned into a link or an image keeps the invariant |
| `InlineInvariant.PopKeeps` | swift-markdown-ui/Sources/cmark-gfm/inlines.c:1055-1063 | Popping a bracket that makes no link keeps the invariant |
| `InlineSubject.Subject.HandleDelim` | swift-markdown-ui/Sources/cmark-gfm/inlines.c:531-555 | The linked subject takes a run as the parser on values does |
| `InlineSubject.Subject.HandleOpenBracket` | swift-markdown-ui/Sources/cmark-gfm/inlines.c:1360-1439 | An opening bracket, likewise |
| `InlineSubject.Subject.HandleCloseBracket` | swift-markdown-ui/Sources/cmark-gfm/inlines.c:1035-1260 | A closing bracket: inactive or failed openers are popped, a match becomes a link or an image with its emphasis resolved, as on values |
| `InlineSubject.Subject.MakeLink` | swift-markdown-ui/Sources/cmark-gfm/inlines.c:1220-1257 | The nodes behind the opener become children, emphasis is resolved down to its `previous_delimiter`, and earlier link openers are deactivated |
| `InlineSubject.ParseEvents` | swift-markdown-ui/Sources/cmark-gfm/inlines.c:1449-1450 | The loop over a whole input keeps both linked structures sound and ends in the state the run on values has |
| `InlineSubject.ParseAll` | swift-markdown-ui/Sources/cmark-gfm/inlines.c:1441-1461 | The nodes built equal those on values for every input; both stacks end empty |
| `CodeSpans.ScanFindsFirst` | swift-markdown-ui/Sources/cmark-gfm/inlines.c:284-322 | Any non-zero result is the end of the first maximal run of exactly that length past the cursor, and zero means there is none |
| `CodeSpans.ScanMemo` | swift-markdown-ui/Sources/cmark-gfm/inlines.c:284-322 | After a scan the memo holds, for each length, the start of the last run of that length it passed |
| `CodeSpans.FailingScanExact` | swift-markdown-ui/Sources/cmark-gfm/inlines.c:316-321 | A scan that reaches the end of the input makes the memo exact for every length, when no entry lies past the cursor |
| `CodeSpans.ExactLater` | swift-markdown-ui/Sources/cmark-gfm/inlines.c:291-296 | An exact memo stays exact for every later cursor |
| `CodeSpans.ExactRefusal` | swift-markdown-ui/Sources/cmark-gfm/inlines.c:291-296 | With an exact memo the shortcut refuses exactly the cursors without a closer ahead |
| `CodeSpans.ExactAnswer` | swift-markdown-ui/Sources/cmark-gfm/inlines.c:284-322 | With an exact memo the answer is that of a full rescan, up to and including the next successful one |
| `CodeSpans.MemoKnows` | swift-markdown-ui/Sources/cmark-gfm/inlines.c:284-322 | After any calls at all the memo knows the last run of every length that no successful scan has passed since one failed, and all other entries lie behind the cursor |
| `CodeSpans.AnswerExact` | swift-markdown-ui/Sources/cmark-gfm/inlines.c:284-322 | After any calls the next answer is that of a rescan if and only if it is not so that a run of its length was passed since a scan failed and another one lies ahead |
| `CodeSpans.SecondSpanLost` | swift-markdown-ui/Sources/cmark-gfm/inlines.c:291-296 | So a later run of the length just found is always refused |
| `CodeSpans.MemoRefusesCodeSpan` | swift-markdown-ui/Sources/cmark-gfm/inlines.c:284-322 | A concrete input, two backticks and then two spans of one backtick: the second span is lost |
| `CodeText.NormalizeIsGfm` | swift-markdown-ui/Sources/cmark-gfm/inlines.c:327-358 | `S_normalize_code` follows section 6.3 of the GitHub Flavored Markdown Spec if and only if the content has no CRLF or is not blank |
| `CodeText.PaddedRoundTrip` | swift-markdown-ui/Sources/cmark-gfm/inlines.c:327-358 | Normalizing the padded code gives the code back if and only if it has no line ending and something other than spaces |
| `CodeText.CrLfAlone` | swift-markdown-ui/Sources/cmark-gfm/inlines.c:327-358 | A concrete input, CR LF, on which they differ |
| `CodeText.NormalizeHasNoLineEnds` | swift-markdown-ui/Sources/cmark-gfm/inlines.c:327-358 | No line ending survives normalization |
| `CodeRoundTrip.RoundTrip` | swift-markdown-ui/Sources/cmark-gfm/commonmark.c:376-396 | A rendered code span parses back to a code node with its code, and is consumed exactly, if and only if the code has no NUL, no line ending, something other than spaces and no run as long as the fence, and the memo does not refuse |
| `CodeRoundTrip.RoundTripAfter` | swift-markdown-ui/Sources/cmark-gfm/commonmark.c:376-396 | In any surroundings, behind any calls of the scanner: the refusal is exactly that a successful scan has passed a run of the length since a scan failed |
| `CodeRoundTrip.RoundTripBetween` | swift-markdown-ui/Sources/cmark-gfm/commonmark.c:376-396 | The same for a rendering set between any two texts, the second not beginning with a backtick |
| `CodeRoundTrip.RenderingRefused` | swift-markdown-ui/Sources/cmark-gfm/inlines.c:284-322 | A concrete rendering that stays text |
| `CodeRoundTrip.FramedCloser` | swift-markdown-ui/Sources/cmark-gfm/inlines.c:284-322 | The scan over a rendering stops at the closing fence unless the code has a run as long |
| `CodeScanner.Subject.ScanToClosingBackticks` | swift-markdown-ui/Sources/cmark-gfm/inlines.c:284-322 | The loops over the subject's fields give the answer, the memo and the cursor of the scan on values |
| `CodeScanner.Subject.HandleBackticks` | swift-markdown-ui/Sources/cmark-gfm/inlines.c:363-383 | A code node with the normalized content, or the backticks as text with the cursor behind them |
| `CodeScanner.NormalizeInPlace` | swift-markdown-ui/Sources/cmark-gfm/inlines.c:327-358 | The in-place loop with its trailing write index equals the conversion on values, reads of overwritten bytes included |
| `CodeRender.ShortestUnused` | swift-markdown-ui/Sources/cmark-gfm/commonmark.c:91-116 | The loops over the bit array give the shortest length that is no run of the code, or 32 |
| `CodeRender.RenderCode` | swift-markdown-ui/Sources/cmark-gfm/commonmark.c:376-396 | The output is the fence, the padding where it is needed, the code up to its first NUL, and the same again |
| `LineSplitter.EatIsLines` | swift-markdown-ui/Sources/cmark-gfm/blocks.c:696-760 | Eating a whole input and flushing gives exactly the lines of sections 2.1 to 2.3 of the GitHub Flavored Markdown Spec |
| `LineSplitter.ChunkingDoesNotMatter` | swift-markdown-ui/Sources/cmark-gfm/blocks.c:696-760 | The lines do not depend on how the input is cut into buffers if and only if no empty buffer stands between the bytes of a CRLF; so never when no buffer is empty |
| `LineSplitter.EmptyBufferTears` | swift-markdown-ui/Sources/cmark-gfm/blocks.c:702-706 | A concrete cut, CR, nothing, LF: one line ending becomes two |
| `LineSplitter.Parser.TakeLine` | swift-markdown-ui/Sources/cmark-gfm/blocks.c:710-759 | One turn of the loop takes the text up to the next line ending or NUL, with or without carried text |
| `LineSplitter.Parser.Feed` | swift-markdown-ui/Sources/cmark-gfm/blocks.c:696-760 | Feeding any buffer extends the lines processed exactly as the splitter on values; an empty one makes the parser forget a CR |
| `LineSplitter.Parser.Finish` | swift-markdown-ui/Sources/cmark-gfm/blocks.c:1502-1505 | What is left without a line ending is a last line; an empty rest is none |
| `LineSplitter.ProcessChunks` | swift-markdown-ui/Sources/cmark-gfm/blocks.c:679-760 | Any sequence of buffers processes exactly the lines of the whole input, under the same condition |
| `Columns.AdvanceAdds` | swift-markdown-ui/Sources/cmark-gfm/blocks.c:854-881 | Advancing by a and then by b is advancing by a + b, inside a tab as well |
| `Columns.AdvanceSound` | swift-markdown-ui/Sources/cmark-gfm/blocks.c:854-881 | After any advance the column is the tab-stop width consumed, strictly inside the tab when one is partly consumed |
| `Columns.AdvanceCounts` | swift-markdown-ui/Sources/cmark-gfm/blocks.c:854-881 | Columns are counted exactly unless the line ends first |
| `Columns.AdvanceRemembers` | swift-markdown-ui/Sources/cmark-gfm/blocks.c:816-881 | The cached first non-space and its column equal those of a fresh scan after any advance, or are no longer used |
| `Columns.AdvanceToNonspace` | swift-markdown-ui/Sources/cmark-gfm/blocks.c:816-881 | Advancing by the indent ends exactly at the first non-space |
| `Columns.ExpandFrom` | swift-markdown-ui/Sources/cmark-gfm/blocks.c:854-881 | The rest of a line, with tabs expanded, is the expanded line from its column on |
| `Columns.AddedIsRest` | swift-markdown-ui/Sources/cmark-gfm/blocks.c:198-212 | The text added to a block shows exactly the columns of the line that are left, a split tab included (section 2.2) |
| `LineCursor.AdvanceWithin` | swift-markdown-ui/Sources/cmark-gfm/blocks.c:816-881 | Any number of columns before the first non-space is consumed exactly and leaves the scan result as it was |
| `LineCursor.BytesOrColumns` | swift-markdown-ui/Sources/cmark-gfm/blocks.c:888-937 | The indent skipped by bytes and by columns is the same |
| `LineCursor.PaddingIsContentColumn` | swift-markdown-ui/Sources/cmark-gfm/blocks.c:1221-1249 | An item's content starts padding columns behind its marker, unless nothing follows the marker |
| `LineCursor.Parser.AdvanceOffset` | swift-markdown-ui/Sources/cmark-gfm/blocks.c:854-881 | The loop over the parser's fields equals the advance on values |
| `LineCursor.Parser.Consume` | swift-markdown-ui/Sources/cmark-gfm/blocks.c:854-881 | Every advance keeps the column exact and the cache right |
| `LineCursor.Parser.FindFirstNonspace` | swift-markdown-ui/Sources/cmark-gfm/blocks.c:816-846 | Indent, blank and first non-space are those of a fresh scan, cached or not |
| `LineCursor.Parser.AddLine` | swift-markdown-ui/Sources/cmark-gfm/blocks.c:198-212 | `add_line` appends the unconsumed columns and nothing else |
| `LineCursor.Parser.BlockQuotePrefix` | swift-markdown-ui/Sources/cmark-gfm/blocks.c:888-905 | The prefix matches exactly up to three columns before `>`, and takes the marker and one optional column |
| `LineCursor.Parser.OpenBlockQuote` | swift-markdown-ui/Sources/cmark-gfm/blocks.c:1115-1127 | Opening a quote, counted in bytes, ends at the same cursor as the prefix, counted in columns |
| `LineCursor.Parser.ItemPrefix` | swift-markdown-ui/Sources/cmark-gfm/blocks.c:919-937 | An item goes on exactly when the indent reaches its content or the line is blank, and how far the cursor moves |
| `LineCursor.Parser.ItemPadding` | swift-markdown-ui/Sources/cmark-gfm/blocks.c:1221-1249 | The saved and restored cursor of the padding computation gives the width rule of section 5.2 |
| `BlockScan.KillPositionExact` | swift-markdown-ui/Sources/cmark-gfm/blocks.c:785-810 | Where a thematic-break scan failed, no scan from before that place can match |
| `BlockScan.KillMoves` | swift-markdown-ui/Sources/cmark-gfm/blocks.c:1188-1195 | A failed scan at the first non-space makes the memo exact from the cursor on |
| `BlockScan.MarkerIsGfm` | swift-markdown-ui/Sources/cmark-gfm/blocks.c:542-626 | A marker is found exactly where section 5.2 has one and it may start an item, with its length, kind and number; the number fits an int |
| `BlockTree.WithoutIsRest` | swift-markdown-ui/Sources/cmark-gfm/blocks.c:305-314 | A freed block leaves the list of children; the others keep their order and number |
| `OpenBlocks.Parser.Finalize` | swift-markdown-ui/Sources/cmark-gfm/blocks.c:274-382 | Called on an open block only; it closes that block, takes the definitions out of a paragraph, and frees it if nothing is left |
| `OpenBlocks.Parser.AddChild` | swift-markdown-ui/Sources/cmark-gfm/blocks.c:385-408 | The container takes the child, or is closed, once, and its parent does; the open blocks below the last matched one are kept apart |
| `OpenBlocks.Parser.CheckOpenBlocks` | swift-markdown-ui/Sources/cmark-gfm/blocks.c:1030-1094 | The walk ends at a block that is open, the one that the prefixes on values reach; everything is matched exactly when that is the current block; a closed fence makes the parent current |
| `OpenBlocks.Parser.Choose` | swift-markdown-ui/Sources/cmark-gfm/blocks.c:1109-1299 | With the thematic-break memo the choice is the one made without it |
| `OpenBlocks.Parser.Begin` | swift-markdown-ui/Sources/cmark-gfm/blocks.c:1115-1299 | Each choice adds the block of its kind below the container and moves the cursor behind its marker, without disturbing the unmatched blocks |
| `OpenBlocks.Parser.AddItem` | swift-markdown-ui/Sources/cmark-gfm/blocks.c:1251-1268 | A matching list takes the item, any other container gets a new list |
| `OpenBlocks.Parser.SetextHeading` | swift-markdown-ui/Sources/cmark-gfm/blocks.c:1175-1187 | A paragraph with content left behind its definitions becomes a heading where it stands |
| `OpenBlocks.Parser.OpenNewBlocks` | swift-markdown-ui/Sources/cmark-gfm/blocks.c:1096-1309 | Every block a line starts lies inside the one before; when none is started the tree is as it was; the loop ends |
| `OpenBlocks.Parser.ContinueLazily` | swift-markdown-ui/Sources/cmark-gfm/blocks.c:1343-1352 | A lazy continuation extends the current paragraph and leaves every block open |
| `OpenBlocks.Parser.CloseUnmatched` | swift-markdown-ui/Sources/cmark-gfm/blocks.c:1354-1358 | Each unmatched block is finalized once, while open, even when the last matched container was closed before them |
| `OpenBlocks.Parser.FillContainer` | swift-markdown-ui/Sources/cmark-gfm/blocks.c:1360-1420 | Which block takes the rest of the line, with which text, and which is current afterwards |
| `OpenBlocks.Parser.AddText` | swift-markdown-ui/Sources/cmark-gfm/blocks.c:1311-1422 | The open blocks afterwards are exactly the current block and those that hold it |
| `OpenBlocks.Parser.ProcessLine` | swift-markdown-ui/Sources/cmark-gfm/blocks.c:1425-1492 | After every line the open blocks are exactly the chain of last children from the root to the current block, they are those of the line on values, and blocks closed before are untouched |
| `OpenBlocks.ProcessLines` | swift-markdown-ui/Sources/cmark-gfm/blocks.c:1425-1492 | After any lines the open blocks, their contents and numbers of children are those of the run on values |
| `OpenBlocks.Parser.FinalizeDocument` | swift-markdown-ui/Sources/cmark-gfm/blocks.c:636-647 | At the end every block has been closed, and those closed before are untouched |
| `OpenBlocks.ParseLines` | swift-markdown-ui/Sources/cmark-gfm/blocks.c:1425-1511 | Any lines at all make a well-formed tree of closed blocks |
| `BlockLines.ProcessedExplicit` | swift-markdown-ui/Sources/cmark-gfm/blocks.c:1425-1492 | What a line on values does, with the rules of its prefixes, starts and text spelled out: any rules that satisfy the description give the same |
| `BlockLaws.RunNested` | swift-markdown-ui/Sources/cmark-gfm/blocks.c:385-408 | After any lines the open blocks start with the document and each may hold the next |
| `BlockLaws.BlankLine` | swift-markdown-ui/Sources/cmark-gfm/blocks.c:1030-1094 | A blank line starts nothing, leaves only blocks that were open, and ends every paragraph, heading and quote, with no lazy continuation |
| `LineShift.NonspaceOver` | swift-markdown-ui/Sources/cmark-gfm/blocks.c:815-842 | Behind a prefix an indent measures as wide as without it if and only if it holds no tab or the prefix is whole tab stops wide |
| `LineShift.ChoiceOver` | swift-markdown-ui/Sources/cmark-gfm/blocks.c:1096-1309 | Where no tab stands among its marks, or the prefix is whole tab stops wide, a line starts the same block behind it as without it |
| `LineShift.PrefixedOver` | swift-markdown-ui/Sources/cmark-gfm/blocks.c:888-1005 | And every open block is matched alike, up to the same place |
| `NestLaw.NestLine` | swift-markdown-ui/Sources/cmark-gfm/blocks.c:1425-1492 | In a quote or an item that takes the prefix, a line does to the blocks inside what it does to those of a document, in every state, if no tab stands among its marks or the prefix is whole tab stops wide |
| `NestLaw.NestFirst` | swift-markdown-ui/Sources/cmark-gfm/blocks.c:1425-1492 | The same for the line that starts the quote or the item |
| `NestLaw.NestLazy` | swift-markdown-ui/Sources/cmark-gfm/blocks.c:1341-1352 | The prefix may be missing before text that goes on with a paragraph |
| `NestLaw.TabsInText` | swift-markdown-ui/Sources/cmark-gfm/blocks.c:854-881 | Tabs behind a byte that is no blank, digit or mark never count as tabs among the marks |
| `QuoteLaw.QuoteProcessed` | swift-markdown-ui/Sources/cmark-gfm/blocks.c:1425-1492 | A marker before a line without tabs among its marks puts all that the line does to the open blocks into the quote, in every state |
| `QuoteLaw.QuotedRun` | swift-markdown-ui/Sources/cmark-gfm/blocks.c:1425-1492 | Section 5.1 over whole runs, lazy continuation included: markers before the lines of a document put its open blocks, contents included, into one block quote |
| `ItemLaw.ItemProcessed` | swift-markdown-ui/Sources/cmark-gfm/blocks.c:1425-1492 | An indent as wide as an open item puts all that a line does to the open blocks into the item, in every state |
| `ItemLaw.ItemFirst` | swift-markdown-ui/Sources/cmark-gfm/blocks.c:1212-1279 | A line behind any list marker and one to four spaces opens one list and one item and does inside what it does to a document, unless the whole is a thematic break |
| `ItemLaw.ItemRun` | swift-markdown-ui/Sources/cmark-gfm/blocks.c:1425-1492 | Section 5.2 over whole runs, lazy continuation included: a marker before the first line and as many spaces before the others put the open blocks, contents included, into one item of one list |
| `TabLaw.MetLadder` | swift-markdown-ui/Sources/cmark-gfm/blocks.c:918-937 | Of items nested in lists all go on exactly if the indent reaches the content of the last; a blank line goes on with all but an empty one |
| `TabLaw.CarryLine` | swift-markdown-ui/Sources/cmark-gfm/blocks.c:1425-1492 | A line that begins with no marker leaves the last of such items open exactly if its indent reaches the content of that item |
| `TabLaw.QuoteExact` | swift-markdown-ui/Sources/cmark-gfm/blocks.c:1425-1492 | Section 5.1 for one more line that begins with no marker: behind all runs of lines, quoted and not, it holds if and only if no tab stands in the indent of the line |
| `TabLaw.TabBreaksQuote` | swift-markdown-ui/Sources/cmark-gfm/blocks.c:854-881 | A concrete line with a tab for which it fails |
| `TabLaw.ItemExact` | swift-markdown-ui/Sources/cmark-gfm/blocks.c:1425-1492 | Section 5.2 likewise, for every marker: if and only if no tab stands in the indent of the line or the item is whole tab stops wide |
| `TabLaw.TabBreaksItem` | swift-markdown-ui/Sources/cmark-gfm/blocks.c:854-881 | Two concrete lines, the second with a tab, for which that fails in an item two columns wide |
| `DocumentFeed.Feed` | swift-markdown-ui/Sources/cmark-gfm/blocks.c:679-760 | From buffers to blocks: however a document is cut into buffers, the open blocks at its end are those of the run on its lines, unless an empty buffer tears a CRLF |
| `DocumentFeed.Parse` | swift-markdown-ui/Sources/cmark-gfm/blocks.c:1494-1511 | And finishing closes every block of a well-formed tree |
| `NodeTree.SlotsDiffer` | swift-markdown-ui/Sources/cmark-gfm/node.c:762-784 | In a consistent list no child stands twice |
| `NodeTree.CanContain` | swift-markdown-ui/Sources/cmark-gfm/node.c:50-70 | The climb to the root accepts exactly a fitting kind that is neither the node nor above it |
| `NodeTree.LetGo` | swift-markdown-ui/Sources/cmark-gfm/node.c:762-784 | The pointers of the neighbours and the parent become those of the list without the node |
| `NodeTree.UnlinkInner` | swift-markdown-ui/Sources/cmark-gfm/node.c:762-784 | After `S_node_unlink` everything but the node's own pointers is consistent |
| `NodeTree.Unlink` | swift-markdown-ui/Sources/cmark-gfm/node.c:786-792 | The tree stays consistent and acyclic; exactly one list of children changes |
| `NodeTree.LinkSlots` | swift-markdown-ui/Sources/cmark-gfm/node.c:794-914 | The assignments that the insertions share make the pointers of the list with the node at its place |
| `NodeTree.Link` | swift-markdown-ui/Sources/cmark-gfm/node.c:794-914 | Linking keeps the tree consistent and acyclic |
| `NodeTree.PrependChild` | swift-markdown-ui/Sources/cmark-gfm/node.c:868-890 | The child is first; refused exactly when the kinds forbid it or the child is above the node, and then nothing changes |
| `NodeTree.AppendChild` | swift-markdown-ui/Sources/cmark-gfm/node.c:892-914 | The child is last, with the same refusals |
| `NodeTree.InsertBefore` | swift-markdown-ui/Sources/cmark-gfm/node.c:794-825 | The sibling is just before the node; the tree stays consistent if and only if the node is not inserted before itself |
| `NodeTree.InsertAfter` | swift-markdown-ui/Sources/cmark-gfm/node.c:827-858 | The sibling is just behind the node, with the same exception |
| `NodeTree.OwnNeighbour` | swift-markdown-ui/Sources/cmark-gfm/node.c:794-825 | A node that is its own neighbour belongs to no consistent tree |
| `NodeTree.InsertBeforeItself` | swift-markdown-ui/Sources/cmark-gfm/node.c:794-825 | A concrete edit that is accepted and breaks the tree |
| `TreeWalk.FreeOne` | swift-markdown-ui/Sources/cmark-gfm/node.c:146-168 | One turn puts the children before what follows and keeps every branch still to free |
| `TreeWalk.FreeNodes` | swift-markdown-ui/Sources/cmark-gfm/node.c:146-168 | The nodes freed are the branch in preorder: each node once and nothing else |
| `TreeShape.GrownMatches` | swift-markdown-ui/Sources/cmark-gfm/node.c:146-168 | In a consistent tree the pointers below a node are those of a finite branch |
| `TreeShape.GrownHolds` | swift-markdown-ui/Sources/cmark-gfm/node.c:146-168 | That branch holds exactly the nodes that have the node above them |
| `TreeShape.GrownNoDup` | swift-markdown-ui/Sources/cmark-gfm/node.c:146-168 | No node stands in it twice |
| `TreeShape.Free` | swift-markdown-ui/Sources/cmark-gfm/node.c:170-174 | `cmark_node_free` frees exactly the node and what lies below it, once each, and leaves a consistent tree |
| `TreeCheck.Check` | swift-markdown-ui/Sources/cmark-gfm/node.c:925-979 | `cmark_node_check`, where first children and next siblings form a finite branch without repeats: zero errors if and only if previous siblings, parents and last children agree with the lists of children below the node, childless nodes aside; afterwards they always agree |
| `TreeCheck.StaleLastChild` | swift-markdown-ui/Sources/cmark-gfm/node.c:925-979 | Two concrete nodes, one the last child of the other but not its first: the tree is broken and no error is found |
| `TreeCheck.CheckTree` | swift-markdown-ui/Sources/cmark-gfm/node.c:925-979 | In a consistent tree it finds no error and changes nothing |
| `TreeWalk.Iter.Next` | swift-markdown-ui/Sources/cmark-gfm/iterator.c:41-78 | One call takes the pending event and steps to the next |
| `TreeWalk.TourFollows` | swift-markdown-ui/Sources/cmark-gfm/iterator.c:41-78 | Inside a tree the steps take exactly the recursive walk of a subtree and then leave it |
| `TreeWalk.WalkIsTour` | swift-markdown-ui/Sources/cmark-gfm/iterator.c:41-78 | From its root the iterator takes exactly the recursive walk, leaves entered only, and is then done |
| `TreeWalk.Walk` | swift-markdown-ui/Sources/cmark-gfm/blocks.c:428-448 | Calling next until done yields the recursive walk |
| `TextNodes.Absorb` | swift-markdown-ui/Sources/cmark-gfm/iterator.c:110-118 | Freeing a text node during the walk leaves the walk as it was without that node |
| `TextNodes.MergeRun` | swift-markdown-ui/Sources/cmark-gfm/iterator.c:105-123 | A text node takes in all text siblings behind it; the text of the walk stays |
| `TextNodes.TourOnce` | swift-markdown-ui/Sources/cmark-gfm/iterator.c:41-78 | A tree's walk meets each text node once |
| `TextNodes.Consolidate` | swift-markdown-ui/Sources/cmark-gfm/iterator.c:95-126 | Afterwards no two text siblings are adjacent, the text is the same, and all other nodes are met in the same order |
| `TextNodes.ConsolidateTree` | swift-markdown-ui/Sources/cmark-gfm/iterator.c:95-126 | On a whole tree: no text node below the root has a text sibling behind it, the text is what it was, and the other nodes are the same in the same order |
| `LabelMap.CompareChains` | swift-markdown-ui/Sources/cmark-gfm/map.c:34-45 | The order of labels is transitive |
| `LabelMap.DedupedRises` | swift-markdown-ui/Sources/cmark-gfm/map.c:64-71 | After removing duplicates the labels rise strictly |
| `LabelMap.DedupedNames` | swift-markdown-ui/Sources/cmark-gfm/map.c:64-71 | Every label is left |
| `LabelMap.DedupedKeepsOldest` | swift-markdown-ui/Sources/cmark-gfm/map.c:39-71 | Of each label the entry with the smallest age is left, for every order that sorting may produce |
| `LabelMap.FirstIsOldest` | swift-markdown-ui/Sources/cmark-gfm/references.c:29-37 | The entry with the smallest age is the first definition |
| `LabelMap.FoundIsFirst` | swift-markdown-ui/Sources/cmark-gfm/map.c:53-98 | What halving finds is what the plain search for the first definition finds (section 4.7), or neither finds any |
| `LabelMap.Compact` | swift-markdown-ui/Sources/cmark-gfm/map.c:64-71 | The in-place loop leaves the deduplicated entries in front |
| `LabelMap.Map.Create` | swift-markdown-ui/Sources/cmark-gfm/references.c:18-38 | A definition becomes the newest entry, with its age; an empty label is ignored |
| `LabelMap.Map.SortMap` | swift-markdown-ui/Sources/cmark-gfm/map.c:53-72 | Sorting keeps the meaning of the map |
| `LabelMap.Map.Search` | swift-markdown-ui/Sources/cmark-gfm/map.c:91-97 | Halving finds an entry exactly when the label is there |
| `LabelMap.Map.Lookup` | swift-markdown-ui/Sources/cmark-gfm/map.c:74-98 | Every lookup, the first one that sorts and all later ones, returns the first definition |
| `Utf8.ValidIsGrammar` | swift-markdown-ui/Sources/cmark-gfm/utf8.c:48-108 | The check accepts n bytes exactly when section 4 of RFC 3629 does |
| `Utf8.IterateIsValid` | swift-markdown-ui/Sources/cmark-gfm/utf8.c:150-187 | Decoding succeeds exactly where the check does, with its length, and gives a scalar value |
| `Utf8.DecodeEncoded` | swift-markdown-ui/Sources/cmark-gfm/utf8.c:150-225 | Decoding inverts encoding exactly for the scalar values other than U+FFFE and U+FFFF |
| `Utf8.EncodeDecoded` | swift-markdown-ui/Sources/cmark-gfm/utf8.c:150-225 | What was decoded encodes to its own bytes, with the same two exceptions |
| `Utf8.CheckedWellFormed` | swift-markdown-ui/Sources/cmark-gfm/utf8.c:110-148 | The output is well-formed UTF-8 without NUL, whatever came in |
| `Utf8.CheckedSameIfWellFormed` | swift-markdown-ui/Sources/cmark-gfm/utf8.c:110-148 | A line comes out unchanged if and only if it was well-formed and had no NUL |
| `Utf8.CheckedTwice` | swift-markdown-ui/Sources/cmark-gfm/utf8.c:110-148 | Checking twice is checking once |
| `Utf8.Skim` | swift-markdown-ui/Sources/cmark-gfm/utf8.c:118-134 | The inner loop stops at the first byte at fault with a positive count |
| `Utf8.Check` | swift-markdown-ui/Sources/cmark-gfm/utf8.c:110-148 | The nested loops end and give the checked line |
| `Html.EscapeHtml` | swift-markdown-ui/Sources/cmark-gfm/houdini_html_e.c:35-62 | The nested loops replace exactly the special characters of the mode |
| `Html.LookupFinds` | swift-markdown-ui/Sources/cmark-gfm/houdini_html_u.c:12-36 | Halving finds a name if and only if it stands in the sorted table, with its bytes |
| `Html.ReadDigits` | swift-markdown-ui/Sources/cmark-gfm/houdini_html_u.c:46-72 | The clamped number decides as the exact value of the digits would, and never leaves the range of an int |
| `Html.HexValues` | swift-markdown-ui/Sources/cmark-gfm/houdini_html_u.c:62 | The bit trick gives the value of a hexadecimal digit |
| `Html.UnescapeEnt` | swift-markdown-ui/Sources/cmark-gfm/houdini_html_u.c:38-106 | What a reference consumes and stands for, decimal, hexadecimal or named |
| `Html.NamedReads` | swift-markdown-ui/Sources/cmark-gfm/houdini_html_u.c:84-102 | Every name of the table of up to 31 bytes is read as its bytes |
| `Html.DecimalReads` | swift-markdown-ui/Sources/cmark-gfm/houdini_html_u.c:46-81 | Up to eight decimal digits are read as their code point, repaired where it is no scalar value |
| `Html.UnescapeHtml` | swift-markdown-ui/Sources/cmark-gfm/houdini_html_u.c:108-143 | The loop equals the replacement on values; false says that nothing was there to replace |
| `Html.UnescapeAll` | swift-markdown-ui/Sources/cmark-gfm/houdini_html_u.c:145-149 | The text with every reference replaced |
| `Html.RoundTripBy` | swift-markdown-ui/Sources/cmark-gfm/houdini_html_u.c:108-149 | Unescaping inverts every escaping whose references read back |
| `Html.RoundTrip` | swift-markdown-ui/Sources/cmark-gfm/houdini_html_e.c:35-62 | Unescaping inverts escaping for every text, in both modes, with a sorted table that holds the four names |
| `StrBuf.Buffer.Grow` | swift-markdown-ui/Sources/cmark-gfm/buffer.c:38-60 | Capacity above the target or a refusal; the text stays; no sum leaves the range of a 32-bit int |
| `StrBuf.Buffer.Put` | swift-markdown-ui/Sources/cmark-gfm/buffer.c:107-116 | The bytes go behind the text, which ends with NUL |
| `StrBuf.Buffer.Truncate` | swift-markdown-ui/Sources/cmark-gfm/buffer.c:195-203 | The text is cut, never extended |
| `StrBuf.Buffer.Drop` | swift-markdown-ui/Sources/cmark-gfm/buffer.c:205-215 | The text loses its first bytes |
| `StrBuf.Buffer.TrimRight` | swift-markdown-ui/Sources/cmark-gfm/buffer.c:217-229 | The text without trailing space |
| `StrBuf.Buffer.Trim` | swift-markdown-ui/Sources/cmark-gfm/buffer.c:231-243 | The text without space at both ends |
| `StrBuf.Buffer.NormalizeWhitespace` | swift-markdown-ui/Sources/cmark-gfm/buffer.c:247-264 | The in-place loop collapses every run of space to one blank |
| `StrBuf.Buffer.Unescape` | swift-markdown-ui/Sources/cmark-gfm/buffer.c:267-279 | The in-place loop drops the backslash before punctuation |
| `StrBuf.CollapsedIsSingle` | swift-markdown-ui/Sources/cmark-gfm/buffer.c:247-264 | Only single blanks are left, and every other character in order |
| `StrBuf.SingleIsCollapsed` | swift-markdown-ui/Sources/cmark-gfm/buffer.c:247-264 | A text of single blanks is left as it is |
| `StrBuf.UnescapeUndoes` | swift-markdown-ui/Sources/cmark-gfm/buffer.c:267-279 | Unescaping undoes a backslash before every punctuation character (section 6.1) |

## Left out

- Smart punctuation, syntax extensions, footnotes and source positions: fixed to off; they add cases, not depth.
- Inline nodes other than text, code, emphasis, links and images (entities, autolinks, raw HTML, line breaks): text to the model.
- The flanking rules of `scan_delims`, the link scanners and `cmark_parse_reference_inline`: their answers are inputs.
- OpenBlocks.Parser.ProcessLine: states which blocks are open, what they contain and how many children they have, and that all others are untouched, not the whole tree a given line yields.
- DocumentFeed.Parse: does not give the finished tree as a value; it says that the tree is well formed and every block closed.
- QuoteLaw.QuotedRun: speaks of the blocks open after the lines, not of those already closed; its condition on tabs is sufficient, not necessary (`TabLaw.QuoteExact` is exact for lines that begin with no marker).
- ItemLaw.ItemRun: likewise; and the item stands at the margin, its first line begins with no blank, and it is the first block of the document.
- OpenBlocks.Parser.Finalize: does not model the trimming of code and HTML text, the info string, or the tight flag of lists.
- OpenBlocks.Parser.FillContainer: does not model the closing hashes cut from an ATX heading.
- OpenBlocks.Parser.AddText: does not model the last-line-blank flags.
- InsertEmphasis.SpliceEmph: does not model the sibling pointers of the inline nodes; the loop of `process_emphasis` works on a sequence of siblings. `EmphNodes.InsertEmph` is the same step on the pointers.
- Pruning.PruningHarmless: one way only; `PruningExact.TreesAgree` is the exact condition.
- CodeRender.RenderCode: does not model line wrapping in the output.
- NodeTree.InsertBefore: does not model null arguments, which the engine refuses; nor do the other edits.
- TextNodes.Consolidate: does not model a text node as the root of the walk with siblings of its own; the root has no parent.
- LabelMap.Map.Search: does not model which of several equal entries `bsearch` would find, as no two are equal.
- Html.LookupFinds: does not model names with a NUL, which `strncmp` would cut short.
- StrBuf.Buffer.Put: does not model a length whose sum with the size leaves the range of an int, which nothing in the engine checks.
- The renderers for HTML, LaTeX, man pages, XML and plain text, and the rest of the CommonMark renderer: long switches of string output.
- `ext_scanners.c`, `scanners.c` and the arena, registry and plugin code: generated automata and plumbing.
- The Swift code around the engine: user interface, files, network and model runners.
