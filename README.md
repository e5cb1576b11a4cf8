# Lesson-plan renderer

The lesson-plan generator collects the parameters of a lesson plan, sends them
to a text-generation service and shows the markdown-like answer. The answer is
shown by `parseAndRender` in `components/GeneratedPlan.tsx`. It is a
line-oriented scanner that turns the text into block nodes:

- tables: a header line, a separator line, then the data rows;
- bulleted lists;
- `### ` and `#### ` headings;
- one emphasized closing sentence, recognised by a fixed Indonesian phrase;
- paragraphs.

Table data cells, list items and ordinary paragraphs also go through an inline
bold formatter, the global `replace` of `\*\*(.*?)\*\*`.

This project models that scanner and its formatter:

- `optional.dfy`: module Optional, the `Option` datatype.
- `js_text.dfy`: module JsText, the JavaScript string operations the scanner relies on: `trim` with its exact whitespace set, `startsWith`, `endsWith`, `includes`, `substring` and `split` on one character. It also defines `Join`, which the scanner never calls; it serves as the inverse of `split` in the round-trip lemmas.
- `inline.dfy`: module Inline, the bold formatter. It is read as the JavaScript regular-expression engine runs the pattern: leftmost match, lazy capture, no `.` across a line terminator, and the search resuming after each match. The result is a list of `Plain`/`Bold` segments. The module also proves that formatting the output again, with its bold markers stripped, finds no bold span.
- `tables.dfy`: module Tables, covering the two pieces of table syntax:
  - the separator test, which searches for a segment `\|-*:?--*:?\|` anywhere in the trimmed line, hand-coded and proved equal to the pattern;
  - the cell split `split('|').slice(1, -1).map(trim)`.
- `plan_renderer.dfy`: module PlanRenderer, the scanner itself:
  - the `Node` datatype, which replaces the React elements and HTML strings;
  - `StepAt`, `RenderFrom` and `Render`, a functional specification of one turn of the scanner and of a whole scan;
  - the rule lemmas, one per rule;
  - the imperative `ParseAndRender` with its outer loop, `EmitBlock` for one turn of that loop, and the two inner loops `ReadTableRows` and `ReadListItems`, each proved against the specification.
- `plan_properties.dfy`: module PlanProperties, properties of whole runs of lines: how far a table or list reaches, adjacent tables, separators with spaces, plain text, the empty-text guard, and why only the trimmed form of a line matters.
- `plan_examples.dfy`: module PlanExamples, worked input shapes (a heading over a paragraph with a bold span) proved against `Render`.

Behaviour of the code that is easy to misread:

- **Empty text.** Splitting empty text gives one empty line, `[""]`, not an empty sequence of lines. The early return for empty text makes no difference (`PlanProperties.EmptyGuardRedundant`).
- **Literal header and heading text.** Table header cells and heading titles are literal text and are not bold-formatted. Only data cells, list items and ordinary paragraphs are.
- **Separator lines.** A line counts as a separator when it starts with a pipe and holds one segment matching `\|-*:?--*:?\|` anywhere. The rest of the line may hold anything. Spaces inside the segment are not allowed, so `| --- |` is not a separator.
- **Line terminators in bold spans.** A bold span cannot cross CR, LS or PS, as well as LF, because `.` matches none of them.
- **No line breaks in cells.** Cells never hold a line break, since lines were already split on LF.
- **Row width.** The number of cells in a data row comes from that row's own pipes alone; it is never compared with the number of header cells.

## Model

| member | source | states |
|---|---|---|
| PlanRenderer.ParseAndRender | components/GeneratedPlan.tsx:9-89 | the element list the scanner returns is exactly `Render(text)`, for every text |
| PlanRenderer.EmitBlock | components/GeneratedPlan.tsx:17-85 | one turn of the outer loop appends exactly the node the first applicable rule makes (none for a blank line) and leaves the cursor where that rule stops |
| PlanRenderer.ReadTableRows | components/GeneratedPlan.tsx:31-42 | the row loop stops at the first line whose trimmed form does not start with a pipe, or at the end, and yields one row of bold-formatted cells per line it passed, in order |
| PlanRenderer.ReadListItems | components/GeneratedPlan.tsx:61-68 | the list loop stops at the first line whose trimmed form does not start with `- `, or at the end, and yields one bold-formatted item per line, the trimmed line without its first two characters |
| PlanRenderer.LineNode | components/GeneratedPlan.tsx:74-83 | among the one-line rules, exactly the blank trimmed line emits nothing |
| PlanRenderer.StepAt | components/GeneratedPlan.tsx:24-85 | every turn advances the cursor and stays within the lines; a table consumes its header, its separator and one line per row; a list one line per item; every other rule exactly one line |
| PlanRenderer.RenderFrom | components/GeneratedPlan.tsx:16-86 | the scan from any cursor emits at most one node per remaining line |
| PlanRenderer.Render | components/GeneratedPlan.tsx:10-12 | empty text gives no nodes, and no text gives more nodes than it has lines |
| PlanRenderer.MapLines | components/GeneratedPlan.tsx:34-41 | one result per line of the run, in order, each computed from its own line |
| PlanRenderer.TilesCover | components/GeneratedPlan.tsx:14-16 | cursor positions that each step strictly forward to a bound tile the range: the first is the start, each follows its predecessor, the last step reaches the bound |
| PlanRenderer.TilesOnce | components/GeneratedPlan.tsx:14-16 | every position of such a range lies in exactly one step |
| PlanRenderer.NextCursor | components/GeneratedPlan.tsx:14-85 | a turn moves the cursor strictly forward and never past the last line |
| PlanRenderer.CursorsTile | components/GeneratedPlan.tsx:14-85 | the scanner's stops begin at the first line, each starts where the previous one ended, and the last block ends at the last line: no line is skipped |
| PlanRenderer.LineReadOnce | components/GeneratedPlan.tsx:14-85 | every line is read as part of exactly one block, with no backtracking or overlap |
| PlanRenderer.TableRule | components/GeneratedPlan.tsx:24-57 | a header line with a separator after it becomes one table: literal header cells, one row per following pipe line; scanning resumes after the last row |
| PlanRenderer.ListRule | components/GeneratedPlan.tsx:60-71 | a maximal run of `- ` lines becomes one list, one item per line; scanning resumes after the run |
| PlanRenderer.LineRule | components/GeneratedPlan.tsx:73-85 | a line that starts neither a table nor a list emits what the one-line rules give its trimmed form and consumes one line |
| PlanRenderer.HeadingRule | components/GeneratedPlan.tsx:74-75 | a trimmed `### ` line becomes a level-2 heading with the literal text from offset 4 |
| PlanRenderer.SubheadingRule | components/GeneratedPlan.tsx:76-77 | a trimmed `#### ` line becomes a level-3 heading with the literal text from offset 5 |
| PlanRenderer.PhraseRule | components/GeneratedPlan.tsx:78-79 | a line containing the special phrase (`SpecialPhrase`, the literal at :78) becomes an emphasized paragraph of the whole trimmed line, unformatted |
| PlanRenderer.BlankRule | components/GeneratedPlan.tsx:80 | a blank line emits nothing and is passed over |
| PlanRenderer.ParagraphRule | components/GeneratedPlan.tsx:80-82 | any other non-blank line becomes a paragraph of its bold-formatted trimmed form |
| PlanProperties.RowRunEndIs | components/GeneratedPlan.tsx:34 | the row run from a line ends exactly at the first line not starting with a pipe |
| PlanProperties.ListRunEndIs | components/GeneratedPlan.tsx:63 | the list run from a line ends exactly at the first line not starting with `- ` |
| PlanProperties.TableExtent | components/GeneratedPlan.tsx:32-44 | a header, a separator and the row lines up to line `e`, before a non-row line or the end, make one table with exactly `e - i - 2` rows; the next node starts at line `e` |
| PlanProperties.TableAt | components/GeneratedPlan.tsx:24-57 | a table whose row run ends at `e` is one node with one row per line before `e`, and the scan resumes at `e` |
| PlanProperties.ListExtent | components/GeneratedPlan.tsx:60-70 | `n` list lines before a non-list line make one list with exactly `n` items; the next node starts `n` lines on |
| PlanProperties.RowRunReaches | components/GeneratedPlan.tsx:34 | a run of pipe lines is consumed whole by the row loop |
| PlanProperties.TableStartRows | components/GeneratedPlan.tsx:21-22 | a table's header and separator lines both start with a pipe |
| PlanProperties.RowRunPastPair | components/GeneratedPlan.tsx:34 | the row loop runs past two more pipe lines after a run of pipe lines |
| PlanProperties.AdjacentTableSwallowed | components/GeneratedPlan.tsx:34-42 | a second header and separator directly below a table's rows are taken as data rows of the first table, not as a new table |
| PlanProperties.SpacedSeparatorNoTable | components/GeneratedPlan.tsx:22-24 | when no pipe of the next line is directly followed by a dash or colon (as when blanks surround the dashes), no table starts |
| PlanProperties.PipeLineWithoutSeparator | components/GeneratedPlan.tsx:24 | a pipe line with no separator after it falls through to the phrase or paragraph rule and consumes one line |
| PlanProperties.EmptyGuardRedundant | components/GeneratedPlan.tsx:10 | scanning the split of empty text yields no nodes, as the early return does |
| PlanProperties.LiteralParagraphs | components/GeneratedPlan.tsx:80-82 | one paragraph per non-blank line, never more nodes than lines |
| PlanProperties.PlainLinesAreParagraphs | components/GeneratedPlan.tsx:80-85 | text with no table, list, heading, phrase or `**` renders as one literal paragraph per non-blank trimmed line, in order |
| PlanProperties.SameTrimsStep | components/GeneratedPlan.tsx:18 | what a turn does depends on the lines only through their trimmed forms |
| PlanProperties.SameTrimsTable | components/GeneratedPlan.tsx:34-36 | lines that trim alike give the same table rows and row-run end |
| PlanProperties.SameTrimsList | components/GeneratedPlan.tsx:63-64 | lines that trim alike give the same list items and list-run end |
| PlanProperties.SameTrimsRowRun | components/GeneratedPlan.tsx:34 | the row run depends on trimmed lines only |
| PlanProperties.SameTrimsListRun | components/GeneratedPlan.tsx:63 | the list run depends on trimmed lines only |
| PlanProperties.SameMapLines | components/GeneratedPlan.tsx:34-41 | per-line results that agree line by line give the same run of results |
| PlanProperties.SameTrimsRender | components/GeneratedPlan.tsx:16-18 | the whole output depends on the lines only through their trimmed forms |
| PlanProperties.CarriageReturnsIgnored | components/GeneratedPlan.tsx:12-18 | lines that differ at most by a trailing CR, as the LF split of CRLF text leaves them, render exactly alike |
| PlanProperties.CrlfLines | components/GeneratedPlan.tsx:12 | the LF split of CRLF text keeps a CR at the end of every line but the last |
| PlanProperties.CrlfTextRendersAsLf | components/GeneratedPlan.tsx:10-18 | text written with CRLF line endings renders exactly as the same LF-free lines written with LF endings |
| PlanExamples.TwoLines | components/GeneratedPlan.tsx:12 | two LF-free lines joined by LF split back into those two lines |
| PlanExamples.RenderTwoLines | components/GeneratedPlan.tsx:10-12 | a two-line text is scanned as those two lines |
| PlanExamples.FormatBoldOnly | components/GeneratedPlan.tsx:81 | `**w**` with asterisk-free, single-line `w` formats to one bold span `w` |
| PlanExamples.FormatLiteralThenBold | components/GeneratedPlan.tsx:81 | literal text then `**w**` formats to a literal segment then a bold span |
| PlanExamples.HeadingLine | components/GeneratedPlan.tsx:74-75 | `### title` is already trimmed and its text from offset 4 is the title |
| PlanExamples.BoldEndedLine | components/GeneratedPlan.tsx:80-81 | a line of literal text and a closing bold span is trimmed and starts no table, list or heading |
| PlanExamples.LastParagraph | components/GeneratedPlan.tsx:80-82 | such a line as the last line renders as one paragraph of a literal and a bold segment |
| PlanExamples.HeadingThenParagraph | components/GeneratedPlan.tsx:74-82 | a `### ` heading over such a line renders as a level-2 heading with the literal title, then that paragraph |
| Tables.SepCellMatches | components/GeneratedPlan.tsx:22 | the hand-written separator-cell test accepts exactly the strings matching `-*:?--*:?` |
| Tables.SepCellOfAccepted | components/GeneratedPlan.tsx:22 | every string the pattern's middle part matches passes the test |
| Tables.SepCellShape | components/GeneratedPlan.tsx:22 | every string that passes the test is dashes, an optional colon, at least one dash, an optional colon |
| Tables.BodyWithoutColon | components/GeneratedPlan.tsx:22 | a separator body with no colon is all dashes |
| Tables.BodyWithColon | components/GeneratedPlan.tsx:22 | a separator body with one colon is dashes, the colon, dashes |
| Tables.NextPipe | components/GeneratedPlan.tsx:22 | finds the first pipe at or after an offset, or reports that there is none |
| Tables.SepCellHasNoPipe | components/GeneratedPlan.tsx:22 | separator-cell text holds no pipe, so a match ends at the next pipe |
| Tables.SeparatorMatchFound | components/GeneratedPlan.tsx:22 | a match of the pattern starting at an offset is found by the scan there |
| Tables.SepSegmentMatches | components/GeneratedPlan.tsx:22 | what the scan finds is a match of the pattern |
| Tables.SeparatorSearch | components/GeneratedPlan.tsx:22 | the scan finds a separator segment exactly when the pattern matches somewhere in the line |
| Tables.SeparatorNeedsDash | components/GeneratedPlan.tsx:22 | a separator segment needs a pipe directly followed by a dash or colon |
| Tables.TrimAll | components/GeneratedPlan.tsx:26 | each piece trimmed, in order |
| Tables.TrimmedPiece | components/GeneratedPlan.tsx:36 | a trimmed piece is its own trim and gains no pipe |
| Tables.Cells | components/GeneratedPlan.tsx:26 | a line with `n` pipes has `n - 1` cells (none without a pipe), each trimmed and pipe-free; `CellsOfPaddedRow` pins their contents |
| Tables.CellsOfPaddedRow | components/GeneratedPlan.tsx:36 | the cells of a row written from pipe-free pieces, padded or not, followed by any pipe-free tail, are exactly the trimmed pieces in order; the tail after the last pipe is dropped |
| Tables.PipeFreeParts | components/GeneratedPlan.tsx:36 | the pieces a row splits into, with the empty piece before the first pipe and the tail, hold no pipe |
| Tables.CellsOfRow | components/GeneratedPlan.tsx:26 | cells already trimmed and written as a pipe row come back unchanged, whatever pipe-free text follows the last pipe |
| Tables.RowJoin | components/GeneratedPlan.tsx:36 | a row and its tail are the pipe join of an empty piece, the cells and the tail |
| Tables.JoinCons | components/GeneratedPlan.tsx:36 | joining a piece in front of others puts one separator between them |
| Tables.JoinSnoc | components/GeneratedPlan.tsx:36 | joining a piece after others puts one separator between them |
| Tables.IsSepCell | components/GeneratedPlan.tsx:22 | the middle of the separator pattern, written by hand; `SepCellMatches` shows it accepts exactly what `-*:?--*:?` matches |
| Tables.SepSegmentAt | components/GeneratedPlan.tsx:22 | the pattern matches from a pipe at this offset up to the next pipe; `SeparatorMatchFound` and `SepSegmentMatches` tie it to the pattern |
| Tables.HasSepSegment | components/GeneratedPlan.tsx:22 | the regular expression's `test` on the trimmed line; `SeparatorSearch` shows it holds exactly when the pattern matches somewhere |
| Tables.IsSeparatorLine | components/GeneratedPlan.tsx:22 | `isSeparatorLine`: the trimmed line starts with a pipe and the pattern matches in it; `SeparatorNeedsDash` and `SpacedSeparatorNoTable` give its consequences |
| PlanRenderer.IsTableLine | components/GeneratedPlan.tsx:21 | a trimmed line that starts and ends with a pipe |
| PlanRenderer.IsTableStart | components/GeneratedPlan.tsx:24 | the table condition: a table line with a separator line directly after it; `TableRule` and `PipeLineWithoutSeparator` give both outcomes |
| PlanRenderer.IsRowLine | components/GeneratedPlan.tsx:34 | the row-loop condition: the trimmed line starts with a pipe |
| PlanRenderer.RowRunEnd | components/GeneratedPlan.tsx:34 | the row run from a line: every line before its end is a row line, and the line at its end, if any, is not |
| PlanRenderer.IsListLine | components/GeneratedPlan.tsx:60 | the list condition: the trimmed line starts with `- ` |
| PlanRenderer.ListRunEnd | components/GeneratedPlan.tsx:63 | the list run from a line: every line before its end is a list line, and the line at its end, if any, is not |
| PlanRenderer.FormatCells | components/GeneratedPlan.tsx:37-38 | one bold-formatted cell per cell, in order |
| PlanRenderer.RowOf | components/GeneratedPlan.tsx:35-38 | one data row: the cells of the trimmed line, each bold-formatted; `CellsOfPaddedRow` gives their contents |
| PlanRenderer.ItemOf | components/GeneratedPlan.tsx:64-65 | one list item: the trimmed line from offset 2, bold-formatted |
| JsText.StartsWith | components/GeneratedPlan.tsx:21 | `startsWith`: the text's first characters are the prefix |
| JsText.EndsWith | components/GeneratedPlan.tsx:21 | `endsWith`: the text's last characters are the suffix |
| JsText.Includes | components/GeneratedPlan.tsx:78 | `includes`, as a left-to-right search; `IncludesAtOffset` shows it holds exactly when the phrase occurs at some offset |
| Inline.Markup | components/GeneratedPlan.tsx:81 | the markdown a segment list stands for, each bold span wrapped back in `**`; `FormatRoundTrip` and `FormatOfCanonical` show it inverts the formatter |
| JsText.IsJsWhitespace | components/GeneratedPlan.tsx:18 | the characters `trim` strips: ECMAScript WhiteSpace (tab, vertical tab, form feed, space, no-break space, byte-order mark and the Unicode space separators) and the line terminators LF, CR, LS and PS |
| Inline.IsLineTerminator | components/GeneratedPlan.tsx:81 | the four characters the pattern's `.` does not match: LF, CR, LS and PS |
| Inline.LazyContent | components/GeneratedPlan.tsx:81 | the text a lazy `(.*?)` can capture before a closing `**`: no line terminator, no `**` inside, and no final `*` |
| Inline.Canonical | components/GeneratedPlan.tsx:81 | the declarative reading of a global lazy replace: literal segments non-empty and never adjacent, no match opening inside one, bold segments lazily captured |
| Tables.MatchesSepCell | components/GeneratedPlan.tsx:22 | the strings the middle `-*:?--*:?` of the separator pattern matches, stated as its four parts |
| Tables.SeparatorMatch | components/GeneratedPlan.tsx:22 | the pattern `\|-*:?--*:?\|` matches the line between the pipes at `i` and `j` |
| Inline.Stripped | components/GeneratedPlan.tsx:81 | the segment texts in order, the output with its bold markers removed: four characters shorter than the markup per bold segment |
| Inline.StrippedIdempotent | components/GeneratedPlan.tsx:81 | formatting the stripped output again gives one unchanged literal segment, or nothing for empty text, and stripping that gives the same text back |
| Inline.StrippedHasNoMatch | components/GeneratedPlan.tsx:81 | no position of the stripped output starts a match of the bold pattern |
| Inline.FormatWithoutMatch | components/GeneratedPlan.tsx:81 | text in which no match opens anywhere comes back as one unchanged literal segment, or none when empty |
| Inline.ReachableBeforeStrip | components/GeneratedPlan.tsx:81 | a `**` reachable without crossing a line terminator in the stripped output was reachable in the input |
| Inline.OpenBeforeStrip | components/GeneratedPlan.tsx:81 | a match opening at the first character of the stripped output already opened at the first character of the input |
| Inline.LazyNoMatch | components/GeneratedPlan.tsx:81 | lazily captured text put in front of text where no match opens does not let a match open |
| Inline.FindClose | components/GeneratedPlan.tsx:81 | the lazy capture finds the first `**` after the opener unless a line terminator comes first, and reports no close exactly then |
| Inline.LazyCapture | components/GeneratedPlan.tsx:81 | captured bold text holds no `**`, no line terminator, and does not end in `*` |
| Inline.Format | components/GeneratedPlan.tsx:81 | bold segments hold lazily captured text and literal segments are non-empty |
| Inline.FormatRoundTrip | components/GeneratedPlan.tsx:81 | rewrapping each bold segment in `**` and concatenating gives the input back exactly |
| Inline.RoundTripBold | components/GeneratedPlan.tsx:81 | the round trip through a leading bold span, given the round trip of the rest |
| Inline.BoldSpan | components/GeneratedPlan.tsx:81 | text with markers at 0 and `q` is the two markers around what lies between, then the rest |
| Inline.MarkupBoldFront | components/GeneratedPlan.tsx:81 | a leading bold segment contributes its text wrapped in `**` |
| Inline.MarkupConsChar | components/GeneratedPlan.tsx:81 | a literal character put in front of segments is put in front of their markup |
| Inline.FormatWithoutMarkers | components/GeneratedPlan.tsx:81 | text with no `**` comes back as one unchanged literal segment, or none when empty |
| Inline.AsteriskFreeLazy | components/GeneratedPlan.tsx:81 | asterisk-free, single-line text can be captured whole |
| Inline.FormatLiteralPrefix | components/GeneratedPlan.tsx:81 | asterisk-free text before a bold span stays one literal segment |
| Inline.CanOpenSearch | components/GeneratedPlan.tsx:81 | a match opens at the front exactly when there is a `**` there and the search for the close succeeds |
| Inline.FormatCanonical | components/GeneratedPlan.tsx:81 | the output is canonical: literal segments non-empty, never adjacent, no match opening inside one; bold segments lazily captured |
| Inline.CanonicalGrowPlain | components/GeneratedPlan.tsx:81 | a literal character merged into a leading literal segment keeps the list canonical |
| Inline.CanonicalNewPlain | components/GeneratedPlan.tsx:81 | a literal character in front of a bold or empty list keeps it canonical |
| Inline.FindCloseAt | components/GeneratedPlan.tsx:81 | a close search with no marker or terminator before `q` finds the marker at `q` |
| Inline.FormatOfCanonical | components/GeneratedPlan.tsx:81 | a canonical segment list is exactly what the formatter makes of its markup, so the output is the one canonical segmentation of the input |
| Inline.FormatOfCanonicalBold | components/GeneratedPlan.tsx:81 | the same for a list that starts with a bold segment |
| Inline.FormatBoldFront | components/GeneratedPlan.tsx:81 | lazily captured text between two markers is read back as one bold segment in front of the rest |
| Inline.CanonicalDropChar | components/GeneratedPlan.tsx:81 | dropping the first character of a leading literal segment keeps the list canonical |
| Inline.FormatLiteralStep | components/GeneratedPlan.tsx:81 | where no match opens, the first character stays literal |
| Inline.CanonicalPlainHead | components/GeneratedPlan.tsx:81 | a canonical list's leading literal segment does not open a match at its front |
| Inline.FormatOfCanonicalPlain | components/GeneratedPlan.tsx:81 | the converse round trip for a list that starts with a literal segment |
| Inline.FormatOfCanonicalLiteral | components/GeneratedPlan.tsx:81 | a literal segment of two or more characters keeps its first character literal and the rest canonical |
| JsText.Substring | components/GeneratedPlan.tsx:64 | `substring(n)` is the text after the first `n` characters, empty once `n` passes the end |
| JsText.IncludesAtOffset | components/GeneratedPlan.tsx:78 | `includes` holds exactly when the phrase occurs at some offset |
| JsText.IncludesTooShort | components/GeneratedPlan.tsx:78 | text shorter than the phrase does not include it |
| JsText.LeadingSpace | components/GeneratedPlan.tsx:18 | the leading whitespace run: all whitespace, followed by a non-whitespace character or the end |
| JsText.TrailingSpace | components/GeneratedPlan.tsx:18 | the trailing whitespace run, likewise |
| JsText.Trim | components/GeneratedPlan.tsx:18 | the trimmed text neither starts nor ends with whitespace and is no longer than the line |
| JsText.TrimSlice | components/GeneratedPlan.tsx:18 | the trimmed text is a slice with only whitespace cut off at both ends |
| JsText.TrimUnique | components/GeneratedPlan.tsx:18 | any such slice without whitespace at its ends is the trimmed text |
| JsText.TrimIdempotent | components/GeneratedPlan.tsx:18 | trimming twice is trimming once |
| JsText.TrimUnchanged | components/GeneratedPlan.tsx:18 | text without whitespace at either end is its own trim |
| JsText.TrimDropsCarriageReturn | components/GeneratedPlan.tsx:18 | a CR at the end of a line is removed by `trim` |
| JsText.Split | components/GeneratedPlan.tsx:12 | one line more than there are LFs, none containing an LF |
| JsText.JoinSplit | components/GeneratedPlan.tsx:12 | joining the lines with LF gives the text back |
| JsText.SplitWithoutSeparator | components/GeneratedPlan.tsx:12 | text without LF is one line |
| JsText.SplitAtFirst | components/GeneratedPlan.tsx:12 | splitting at the first LF gives the first line, then the split of the rest |
| JsText.SplitJoin | components/GeneratedPlan.tsx:12 | LF-free lines joined with LF split back into the same lines |
| JsText.CountAppend | components/GeneratedPlan.tsx:12 | separators in a concatenation add up |
| JsText.CountZero | components/GeneratedPlan.tsx:12 | no separator is counted exactly when none occurs |

## Left out

- `App.tsx`, `services/geminiService.ts` and `components/FormField.tsx` are not part of this model. They hold form state, the prompt template, the network call to the text-generation service and presentational widgets.
- React element construction, element keys, CSS classes and the HTML strings passed to `dangerouslySetInnerHTML` are left out. Nodes and `Plain`/`Bold` segments stand for them. Data cells, list items and ordinary paragraphs reach the page as HTML, so the browser interprets tags and character entities in their text. Headings, header cells and the emphasized paragraph are escaped text. The model keeps all of this text literal, so it does not capture that interpretation.
- The `\n` to `<br/>` replacement on data cells is left out: a cell never contains a line feed.
- JavaScript strings are UTF-16 code units; the model uses characters. No operation used here tells them apart.
- The loop body of `parseAndRender` is a separate method, `PlanRenderer.EmitBlock`, and so are its two inner loops, `ReadTableRows` and `ReadListItems`. The cursor and the output list are passed in and returned rather than shared.
- The worked inputs in `PlanExamples` are stated for every text of a given shape rather than for one fixed literal text.
