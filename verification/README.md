# Side-by-side comparison of a localized entry with its source

The comparison page shows a localized document next to the document it
translates. The component `CompareContent` (in
`src/pages/compare/diff-review.tsx`) does the work in two steps:

1. **Segmentation** (`processMarkdownList`). Each document is cut into
   blocks. The `'double'` strategy cuts on blank lines (`"\n\n"`) and the
   `'single'` strategy cuts on every line break (`"\n"`). With markdown
   processing on, a second pass follows:
   - in `'double'` mode, every block is rescanned line by line. Blockquote
     lines are rewritten to the canonical `> payload`. Lines that become
     empty end the running sub-block. Empty sub-blocks are dropped;
   - in `'single'` mode, every piece is split again with the regular
     expression `/\n(?=\s*- )|(?=\n>)/`.
2. **Alignment**. For each index up to the longer block list, one primary
   row pairs the two sides. In `'double'` mode, and only before the last
   index, up to three extra rows may follow, in this order:
   - a `>` continuation row in the localized column;
   - a `>` continuation row in the source column;
   - a spacer row.

When either entry is missing, the page shows a notice and nothing else.

The Dafny project has four modules:

- `Text` (`text.dfy`): the JavaScript string primitives the page relies on.
  These are `trim` over a fixed white-space set, `startsWith` and `split`
  with a literal separator. Beside them is `Join`, a reference function the
  page itself never calls: it states the round trip of `split` and the
  correspondence between the lines of a document and those of its blocks.
- `Segmenter` (`segmenter.dfy`): the segmentation.
  - The double-mode line scan is a fold, `Rescan`. Beside it is the loop the
    page actually runs, `RescanBlock`, which is proved equal to the fold.
  - The single-mode regular-expression split is an explicit model of the
    `split` loop with a matcher for the two alternatives.
- `Aligner` (`aligner.dfy`): the row emission, as a sequence of
  `Primary(left, right) | ContinueLeft | ContinueRight | Spacer`.
- `DiffReview` (`diff_review.dfy`): the entry guard and the composition of
  the two steps, plus a worked scenario of a paragraph followed by a list.

Two behaviours of the code are easy to miss:

- With markdown processing on, the `'double'` pass drops empty blocks. So
  the empty document gives no block at all (`[]`), not one empty block
  (`[""]`). See `Segmenter.EmptyDocument`.
- The continuation and spacer rows depend only on the split strategy, not
  on the markdown flag (`src/pages/compare/diff-review.tsx:112`, `:124`,
  `:135`). In `'double'` mode they appear even with markdown processing off.
  See `Aligner.ContinuationWithoutMarkdownPass`.

In `'single'` mode every piece of the `"\n"` split is free of line breaks.
Both alternatives of the regular expression need a line break, so the
markdown pass never changes anything in that mode
(`Segmenter.SingleMarkdownIsPlain`).

## Model

| member | source | states |
|---|---|---|
| Text.TrimStart | src/pages/compare/diff-review.tsx:33-34 | the result is a suffix of the input that does not start with white space |
| Text.TrimStartDropsWs | src/pages/compare/diff-review.tsx:33-34 | every character `trimStart` removes is white space |
| Text.TrimEnd | src/pages/compare/diff-review.tsx:33-34 | the result is a prefix of the input that does not end with white space |
| Text.TrimEndDropsWs | src/pages/compare/diff-review.tsx:33-34 | every character removed by the trailing trim is white space |
| Text.Trim | src/pages/compare/diff-review.tsx:33-34 | `trim` leaves no white space at either end and never lengthens the string |
| Text.TrimChars | src/pages/compare/diff-review.tsx:33-34 | every character of the trimmed string occurs in the original |
| Text.TrimSkip | src/pages/compare/diff-review.tsx:33-34 | a leading white-space character does not change the trimmed result |
| Text.TrimUnpadded | src/pages/compare/diff-review.tsx:33-34 | without leading white space, `trim` only removes trailing white space |
| Text.TrimKeepsFirst | src/pages/compare/diff-review.tsx:33-34 | a first character that is not white space stays first after `trim` |
| Text.TrimOfTrimmed | src/pages/compare/diff-review.tsx:34 | `trim` leaves a string with no white space at its ends unchanged |
| Text.TrimStartBlanks | src/pages/compare/diff-review.tsx:34 | leading spaces do not change the start-trimmed result |
| Text.TrimAfterBlanks | src/pages/compare/diff-review.tsx:34 | trimming spaces followed by a trimmed text gives that text |
| Text.TrimEndWs | src/pages/compare/diff-review.tsx:34 | white space at the end does not change the end-trimmed result |
| Text.TrimStartOfWs | src/pages/compare/diff-review.tsx:34 | a string made only of white space trims to the empty string |
| Text.TrimWs | src/pages/compare/diff-review.tsx:34 | white space at the end does not change the trimmed result |
| Text.IndexOf | src/pages/compare/diff-review.tsx:21 | finds the leftmost occurrence of the separator at or after a position, or reports that there is none |
| Text.Split | src/pages/compare/diff-review.tsx:21 | a literal `split` yields at least one piece, and no piece contains the separator |
| Text.IndexOfIs | src/pages/compare/diff-review.tsx:21 | an occurrence with none before it is the one the search finds |
| Text.SplitOfEmpty | src/pages/compare/diff-review.tsx:21 | the empty string splits into one empty piece |
| Text.JoinCons | src/pages/compare/diff-review.tsx:21 | merging the first two pieces, with the separator between them, leaves the join unchanged |
| Text.SplitWithout | src/pages/compare/diff-review.tsx:21 | a string that lacks the separator's first character splits into itself alone |
| Text.SplitAt | src/pages/compare/diff-review.tsx:21 | a separator occurrence with none before it ends the first piece |
| Text.SplitFirst | src/pages/compare/diff-review.tsx:21 | a first piece without the separator's first character is cut off at the first separator |
| Text.JoinOfSplit | src/pages/compare/diff-review.tsx:21 | joining the pieces of a split with the separator gives back the input |
| Text.JoinFront | src/pages/compare/diff-review.tsx:21 | joining a piece in front of a non-empty list puts one separator after it |
| Text.JoinAppend | src/pages/compare/diff-review.tsx:21 | joining two non-empty lists of pieces puts one separator between them |
| Text.OccursAtChar | src/pages/compare/diff-review.tsx:28 | a one-character separator occurs exactly where that character is |
| Text.FreeOfChar | src/pages/compare/diff-review.tsx:28 | a string is free of a one-character separator iff it lacks that character |
| Text.SplitOnCharPieces | src/pages/compare/diff-review.tsx:28 | no piece of a split on one character contains that character |
| Text.SplitAround | src/pages/compare/diff-review.tsx:28 | splitting on one character distributes over a concatenation around that character |
| Text.SplitOfJoin | src/pages/compare/diff-review.tsx:28 | splitting a join of pieces without the character gives back the pieces |
| Text.InJoin | src/pages/compare/diff-review.tsx:28 | a character is in a join iff it is in some piece or in a separator between pieces |
| Segmenter.Delimiter | src/pages/compare/diff-review.tsx:17 | the delimiter of either strategy is non-empty |
| Segmenter.BlockquoteByTrim | src/pages/compare/diff-review.tsx:33 | a line is a blockquote iff its trimmed form starts with `>` |
| Segmenter.Payload | src/pages/compare/diff-review.tsx:34 | the payload of a blockquote line has no white space at either end |
| Segmenter.PayloadByTrim | src/pages/compare/diff-review.tsx:34 | the payload is `line.trim().slice(1).trim()` |
| Segmenter.PayloadChars | src/pages/compare/diff-review.tsx:34 | every character of the payload comes from the line |
| Segmenter.RescanBlock | src/pages/compare/diff-review.tsx:28-53 | the line loop yields exactly the fold over the block's lines, and every sub-block it pushes is non-empty with no empty line |
| Segmenter.MatchAt | src/pages/compare/diff-review.tsx:55 | a match of either alternative starts at a line break and ends at it or just after it |
| Segmenter.RegexSplitFromNoBreak | src/pages/compare/diff-review.tsx:55 | without line breaks the split loop returns the rest of the piece whole |
| Segmenter.RegexSplitNoBreak | src/pages/compare/diff-review.tsx:55 | the regular-expression split leaves a piece without line breaks as it is |
| Segmenter.PlainSegments | src/pages/compare/diff-review.tsx:17-21 | without markdown processing the blocks are the delimiter split: none holds the delimiter, and joining them with it gives back the content |
| Segmenter.SinglePiecesHaveNoBreak | src/pages/compare/diff-review.tsx:17-24 | no piece of the single-strategy split holds a line break |
| Segmenter.FlatMapSingletons | src/pages/compare/diff-review.tsx:25-55 | `flatMap` with a split that keeps each piece whole is the identity |
| Segmenter.SingleMarkdownIsPlain | src/pages/compare/diff-review.tsx:17-55 | in `'single'` mode the markdown pass changes nothing: the blocks are the plain `"\n"` split |
| Segmenter.NoEmptyLineShape | src/pages/compare/diff-review.tsx:44 | a block with no empty line neither starts nor ends with a line break and has no two adjacent line breaks |
| Segmenter.NoEmptyLineIsDoubleFree | src/pages/compare/diff-review.tsx:24-44 | such a block holds no blank-line delimiter and so splits into itself alone |
| Segmenter.RenderedHasNoBreak | src/pages/compare/diff-review.tsx:34-44 | rewriting a line without line breaks introduces none |
| Segmenter.CanonicalQuote | src/pages/compare/diff-review.tsx:33-44 | the canonical `> p` line is a blockquote whose payload is `p` |
| Segmenter.RenderedIsSettled | src/pages/compare/diff-review.tsx:33-44 | a kept line, once rewritten, is a fixed point of the rewriting and is still kept |
| Segmenter.SplitOfLine | src/pages/compare/diff-review.tsx:28 | a line without line breaks splits into itself alone |
| Segmenter.LinesOfSnoc | src/pages/compare/diff-review.tsx:39-50 | pushing a sub-block appends its lines to the lines of the result |
| Segmenter.AppendLine | src/pages/compare/diff-review.tsx:44 | appending a kept line keeps the running sub-block free of empty lines and adds exactly that line |
| Segmenter.StepSpec | src/pages/compare/diff-review.tsx:33-45 | one iteration keeps every sub-block free of empty lines and adds exactly the line's rewriting, or nothing for an empty line |
| Segmenter.KeptLinesCons | src/pages/compare/diff-review.tsx:32 | the kept lines of a list are those of its head, then those of its tail |
| Segmenter.ScanLinesSpec | src/pages/compare/diff-review.tsx:32-51 | the scan keeps every sub-block free of empty lines, and its output lines are the rewritten non-empty lines in order |
| Segmenter.RescanShape | src/pages/compare/diff-review.tsx:28-53 | every rescanned sub-block is non-empty with no empty line, and together they hold exactly the rewritten non-empty lines of the block, in order |
| Segmenter.KeptLinesEmpty | src/pages/compare/diff-review.tsx:36 | no line is kept iff every line becomes empty |
| Segmenter.LinesOfEmpty | src/pages/compare/diff-review.tsx:38-49 | a list of sub-blocks has no lines iff it is empty |
| Segmenter.BlankByTrim | src/pages/compare/diff-review.tsx:33-36 | the scan treats a line as empty iff it is empty or trims to `>`; a line of white space only is kept |
| Segmenter.QuotePayloadEmpty | src/pages/compare/diff-review.tsx:33-36 | a blockquote line's payload is empty iff the line trims to `>` |
| Segmenter.TrimmedTail | src/pages/compare/diff-review.tsx:34 | in a trimmed text of two or more characters, what follows the first character does not trim to nothing |
| Segmenter.RescanEmpty | src/pages/compare/diff-review.tsx:36-53 | a block is rescanned into nothing iff each of its lines is empty or a `>` with only white space around it |
| Segmenter.ScanLinesAppend | src/pages/compare/diff-review.tsx:32-46 | scanning two runs of lines is scanning the first, then the second from where it stopped |
| Segmenter.ScanPrefix | src/pages/compare/diff-review.tsx:29-46 | sub-blocks already pushed stay in front and do not affect the rest of the scan |
| Segmenter.SplitAroundLine | src/pages/compare/diff-review.tsx:28 | the lines around a line without line breaks are the lines before it, that line, and the lines after it |
| Segmenter.ScanThroughBlank | src/pages/compare/diff-review.tsx:36-41 | at a blank line the running sub-block is pushed and the scan of the following lines starts from an empty sub-block |
| Segmenter.RescanAtBlank | src/pages/compare/diff-review.tsx:36-41 | a line that is empty, or a `>` with only white space around it, ends the running sub-block: the lines before and after it are rescanned on their own and no sub-block spans it |
| Segmenter.ScanKept | src/pages/compare/diff-review.tsx:42-45 | lines that are not blank are appended to a non-empty running sub-block, one line break before each, and push nothing |
| Segmenter.RescanOfKept | src/pages/compare/diff-review.tsx:28-53 | only a blank line ends a sub-block: a block with no blank line is rescanned into exactly one sub-block, its rendered lines joined by line breaks |
| Segmenter.InLinesOf | src/pages/compare/diff-review.tsx:28 | every line of every sub-block is among the lines of the list |
| Segmenter.InKeptLines | src/pages/compare/diff-review.tsx:44 | every kept line is the rewriting of some non-empty input line |
| Segmenter.StepSettled | src/pages/compare/diff-review.tsx:44 | a settled line is appended as it is |
| Segmenter.ScanSettled | src/pages/compare/diff-review.tsx:32-46 | scanning settled lines onto a running sub-block joins them onto it with line breaks |
| Segmenter.RescanLinesSettled | src/pages/compare/diff-review.tsx:28-53 | every line of a rescanned sub-block is settled |
| Segmenter.RescanOfSettled | src/pages/compare/diff-review.tsx:28-53 | a block made of settled lines is rescanned into itself |
| Segmenter.RescanIdempotent | src/pages/compare/diff-review.tsx:28-53 | rescanning any sub-block the rescan produced returns exactly that sub-block |
| Segmenter.InFlatMap | src/pages/compare/diff-review.tsx:25 | every output block comes from the rescan of some input block |
| Segmenter.FlatMapEmpty | src/pages/compare/diff-review.tsx:25 | the `flatMap` is empty iff every block is rescanned into nothing |
| Segmenter.InDoubleMarkdown | src/pages/compare/diff-review.tsx:23-53 | every `'double'` markdown block comes from the rescan of a blank-line block and has no empty line |
| Segmenter.DoubleMarkdownBlocks | src/pages/compare/diff-review.tsx:36-51 | every `'double'` markdown block is non-empty, has no leading or trailing line break and no blank line |
| Segmenter.SegmentOfBlock | src/pages/compare/diff-review.tsx:23-53 | a block with no empty line that the rescan keeps comes out of the `'double'` markdown pass as itself alone |
| Segmenter.SegmentOfLine | src/pages/compare/diff-review.tsx:23-53 | a one-line document is one blank-line block, which is only rescanned |
| Segmenter.SegmentAfterBlock | src/pages/compare/diff-review.tsx:23-53 | a block with no empty line, a blank line and the rest: the block is rescanned and the rest is segmented after it |
| Segmenter.DoubleMarkdownIdempotent | src/pages/compare/diff-review.tsx:17-53 | segmenting any `'double'` markdown block again gives that block alone |
| Segmenter.LinesEach | src/pages/compare/diff-review.tsx:28 | the per-block line lists, one per block, in order |
| Segmenter.LinesOfDocument | src/pages/compare/diff-review.tsx:24-28 | the lines of the document are the lines of its blank-line blocks, with one empty line between blocks |
| Segmenter.SplitAfterBreak | src/pages/compare/diff-review.tsx:28 | a line break at the front adds one empty line before the lines |
| Segmenter.BlankLineLines | src/pages/compare/diff-review.tsx:24-28 | a blank line between two parts adds one empty line between their lines |
| Segmenter.LinesEachCons | src/pages/compare/diff-review.tsx:28 | the line lists of a block in front are those of the block, then the rest |
| Segmenter.DocumentLineInBlock | src/pages/compare/diff-review.tsx:24-28 | every non-empty line of the document is a line of some block |
| Segmenter.BlockLineInDocument | src/pages/compare/diff-review.tsx:24-28 | every line of every block is a line of the document |
| Segmenter.DocumentLines | src/pages/compare/diff-review.tsx:24-28 | both directions of the correspondence between document lines and block lines |
| Segmenter.DoubleMarkdownEmpty | src/pages/compare/diff-review.tsx:23-53 | the `'double'` markdown pass yields no block iff every line of the document is empty or a `>` with only white space around it |
| Segmenter.LinesOfAppend | src/pages/compare/diff-review.tsx:39 | the lines of two lists of sub-blocks are the lines of the first, then those of the second |
| Segmenter.KeptLinesAppend | src/pages/compare/diff-review.tsx:32-46 | the kept lines of two runs of lines are those of the first, then those of the second |
| Segmenter.FlatMapLinesCons | src/pages/compare/diff-review.tsx:25-53 | the lines of the rescans of a list of blocks are the kept lines of the first block, then the lines of the rescans of the rest |
| Segmenter.KeptLinesJoinCons | src/pages/compare/diff-review.tsx:24-28 | the empty line between the lines of two blocks keeps nothing |
| Segmenter.FlatMapLines | src/pages/compare/diff-review.tsx:23-53 | the rescans of a list of blocks hold exactly the kept lines of the blocks, in order |
| Segmenter.DoubleMarkdownLines | src/pages/compare/diff-review.tsx:23-53 | no line is lost or added: the `'double'` markdown blocks hold, in order, exactly the lines of the document that are neither empty nor a `>` with only white space around it, each as rendered |
| Segmenter.EmptyDocument | src/pages/compare/diff-review.tsx:20-53 | the empty document gives `[""]` without markdown processing and `[]` with the `'double'` markdown pass |
| Segmenter.SplitAtBlock | src/pages/compare/diff-review.tsx:24 | a block with no empty line ends at the blank line that follows it |
| Segmenter.PaddedQuote | src/pages/compare/diff-review.tsx:33-34 | `>`, then spaces, then a trimmed text is a blockquote with that text as payload |
| Segmenter.RescanOfTwo | src/pages/compare/diff-review.tsx:28-51 | a block of two kept lines is rescanned into one sub-block of their rewritings |
| Segmenter.NoEmptyLineOfTwo | src/pages/compare/diff-review.tsx:44 | two non-empty lines joined by a line break have no empty line |
| Segmenter.QuoteSettled | src/pages/compare/diff-review.tsx:44 | a canonical `> p` line is settled |
| Segmenter.RescanOfLine | src/pages/compare/diff-review.tsx:28-53 | a settled line is rescanned into itself |
| Segmenter.RescanOfOne | src/pages/compare/diff-review.tsx:28-53 | a one-line block is rescanned into the line's rewriting |
| Segmenter.QuotedPairRescan | src/pages/compare/diff-review.tsx:33-44 | two blockquote lines make one sub-block of their canonical forms |
| Segmenter.QuoteNormalisation | src/pages/compare/diff-review.tsx:23-53 | two quote lines, a blank line and a third quote line give two blocks, each in canonical form |
| Segmenter.ThreeBlanksQuote | src/pages/compare/diff-review.tsx:33-34 | `>   b` is a blockquote whose payload is `b` |
| Segmenter.BlockquoteExample | src/pages/compare/diff-review.tsx:33-44 | `"> a\n>   b\n\n> c"` gives `["> a\n> b", "> c"]`, for all trimmed one-line payloads `a`, `b`, `c` |
| Aligner.At | src/pages/compare/diff-review.tsx:83-106 | the block at an index, or the empty string past the end |
| Aligner.MaxLength | src/pages/compare/diff-review.tsx:61 | the larger of the two lengths |
| Aligner.ListItemUnpadded | src/pages/compare/diff-review.tsx:79 | without leading white space, the trimmed form starts with `- ` iff the line does and something other than white space follows |
| Aligner.ListItemByTrim | src/pages/compare/diff-review.tsx:79 | a block is a list item iff its trimmed form starts with `- ` |
| Aligner.Emit | src/pages/compare/diff-review.tsx:101-139 | the rows of one index start with its primary row |
| Aligner.EmitKinds | src/pages/compare/diff-review.tsx:112-139 | each extra row is present iff its decision holds |
| Aligner.RowsAt | src/pages/compare/diff-review.tsx:78-140 | the rows of one index start with the primary row pairing both sides' blocks at that index |
| Aligner.RowsAtKinds | src/pages/compare/diff-review.tsx:82-139 | a left (right) continuation row iff `'double'` mode, a next index and blockquotes on the left (right) at this index and the next; a spacer iff `'double'` mode, a next index and not both indices holding markdown |
| Aligner.RowsAtOrder | src/pages/compare/diff-review.tsx:101-139 | the rows of one index are one primary row followed by non-primary rows, in the order primary, left continuation, right continuation, spacer |
| Aligner.PrimaryRowsFrom | src/pages/compare/diff-review.tsx:101-109 | one primary row per index from a start index to the last |
| Aligner.PrimariesAppend | src/pages/compare/diff-review.tsx:78 | the primary rows of a concatenation are those of each part, in order |
| Aligner.PrimariesNone | src/pages/compare/diff-review.tsx:112-139 | rows with no primary row contribute no primary row |
| Aligner.PrimariesOfIndex | src/pages/compare/diff-review.tsx:78-140 | each index contributes exactly its own primary row |
| Aligner.PrimariesStep | src/pages/compare/diff-review.tsx:78-140 | the primary rows from an index are its own, then those of the later indices |
| Aligner.PrimariesFrom | src/pages/compare/diff-review.tsx:78-140 | the primary rows from an index are one per later index, in order |
| Aligner.PrimaryRows | src/pages/compare/diff-review.tsx:61-109 | there are exactly `maxLength` primary rows, and the `i`-th pairs the blocks of both sides at `i` |
| Aligner.AlignFromAtLeast | src/pages/compare/diff-review.tsx:78-140 | at least one row per remaining index |
| Aligner.AlignLength | src/pages/compare/diff-review.tsx:61-78 | there are at least as many rows as blocks on either side |
| Aligner.SingleFrom | src/pages/compare/diff-review.tsx:112-135 | in `'single'` mode the rows from an index are its primary rows alone |
| Aligner.SingleRows | src/pages/compare/diff-review.tsx:112-135 | in `'single'` mode there are exactly `maxLength` rows, all primary |
| Aligner.LastRow | src/pages/compare/diff-review.tsx:112-135 | the last index gives its primary row and nothing after it |
| Aligner.NextPrimary | src/pages/compare/diff-review.tsx:101-139 | the position of the next primary row, with no primary row before it |
| Aligner.GroupsCons | src/pages/compare/diff-review.tsx:101-140 | a primary row with its extra rows forms one group in front of the following ones |
| Aligner.RowsFrom | src/pages/compare/diff-review.tsx:78-140 | one row group per index from a start index to the last |
| Aligner.RowsFromAt | src/pages/compare/diff-review.tsx:78-140 | the `k`-th group from index `i` is the rows of index `i + k` |
| Aligner.GroupsOfFlatten | src/pages/compare/diff-review.tsx:101-140 | cutting a run of groups at their primary rows gives back the groups |
| Aligner.FlattenRowsFrom | src/pages/compare/diff-review.tsx:78-140 | the rows from an index are the per-index groups one after the other |
| Aligner.GroupsFrom | src/pages/compare/diff-review.tsx:78-140 | cutting the rows at each primary row gives back the per-index groups |
| Aligner.GroupsOfAlign | src/pages/compare/diff-review.tsx:78-140 | the output falls into exactly `maxLength` groups, and group `i` is the rows of index `i` |
| Aligner.ContinuationWithoutMarkdownPass | src/pages/compare/diff-review.tsx:112 | two consecutive blockquote blocks on the left give a continuation row in `'double'` mode, whatever the markdown flag |
| Aligner.InGroups | src/pages/compare/diff-review.tsx:78 | a row in a group is a row of the output |
| DiffReview.CompareContent | src/pages/compare/diff-review.tsx:12-61 | the notice iff an entry is missing; otherwise `maxLength` primary rows pairing the blocks at each index, and no other row in `'single'` mode; the rows fall into exactly `maxLength` groups, group `i` being the rows of index `i` with its continuation and spacer rows as the conditions give them |
| DiffReview.PlainLineSettled | src/pages/compare/diff-review.tsx:28-53 | a plain one-line paragraph is one block, kept as written |
| DiffReview.ItemSettled | src/pages/compare/diff-review.tsx:79-80 | `- x` is a settled list item and not a blockquote |
| DiffReview.ItemsBlock | src/pages/compare/diff-review.tsx:28-53 | two list items make one list-item block, kept as written |
| DiffReview.ItemLine | src/pages/compare/diff-review.tsx:28-53 | one list item is one block, kept as written |
| DiffReview.ParagraphThenBlock | src/pages/compare/diff-review.tsx:23-53 | a paragraph, a blank line and a settled block give those two blocks |
| DiffReview.TwoIndexRows | src/pages/compare/diff-review.tsx:78-140 | two indices, only the second with markdown, give a primary row, a spacer and a primary row |
| DiffReview.ListScenario | src/pages/compare/diff-review.tsx:12-140 | a paragraph followed by a two-item list on one side and a one-item list on the other gives a paragraph row, a spacer and a list row |

## Left out

- The rendering: JSX, class names, the `&nbsp;` placeholder for an empty
  cell, and React keys (`src/pages/compare/diff-review.tsx:63-77`,
  `:102-138`). A row is modelled by its kind and its text.
- The locale heading and the metadata panels `L10nedEntryProperties` and
  `SourceEntryProperties` (`src/pages/compare/diff-review.tsx:147-202`).
  They only display fields.
- The entry type from `@models/entry` is not part of this model. An entry
  is reduced to its `content`, and `null` and `undefined` are both the
  missing case, which is all the guard at `:13` distinguishes.
- `trim` and `\s` are over a fixed set of ten white-space characters. These
  are the ASCII white space, no-break space, the byte order mark and the
  line and paragraph separators. The other Unicode space separators are
  left out.
- The regular expression at `:55` is modelled by a matcher for its two
  alternatives and the `split` loop, not by a regular-expression engine.
