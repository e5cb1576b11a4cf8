/**
 * The lesson-plan renderer `parseAndRender`: a line-oriented scanner that turns
 * the generated markdown-like text into block nodes (tables, lists, two heading
 * levels, one emphasized closing sentence, paragraphs). Block nodes replace the
 * React elements and HTML strings the component builds; bold spans inside them
 * are the segments of module Inline.
 *
 * `StepAt` says what the rule that fires at a cursor position emits and where it
 * leaves the cursor; `RenderFrom` strings the steps together and is the
 * specification the imperative `ParseAndRender` is proved against.
 */
module PlanRenderer {
  import opened Optional
  import opened JsText
  import opened Inline
  import opened Tables

  /** The fragment of the closing sentence that earns the emphasized paragraph. */
  const SpecialPhrase: string := "prinsip belajar berkesadaran, bermakna, dan menggembirakan"

  datatype Node =
    | Heading(level: nat, title: string)
    | Paragraph(content: seq<Segment>, emphasized: bool)
    | List(items: seq<seq<Segment>>)
    | Table(headers: seq<string>, rows: seq<seq<seq<Segment>>>)

  /** A trimmed line that may head a table: it starts and ends with a pipe. */
  predicate IsTableLine(t: string) {
    StartsWith(t, "|") && EndsWith(t, "|")
  }

  /** A table starts at line `i`: a header line with a separator line right after it. */
  predicate IsTableStart(lines: seq<string>, i: nat)
    requires i < |lines|
  {
    IsTableLine(Trim(lines[i])) && i + 1 < |lines| && IsSeparatorLine(lines[i + 1])
  }

  /** A line the table-row loop takes: its trimmed form starts with a pipe. */
  predicate IsRowLine(l: string) {
    StartsWith(Trim(l), "|")
  }

  /** A line the list loop takes: its trimmed form starts with `- `. */
  predicate IsListLine(l: string) {
    StartsWith(Trim(l), "- ")
  }

  /** The end of the run of row lines starting at `j`. */
  function RowRunEnd(lines: seq<string>, j: nat): (e: nat)
    requires j <= |lines|
    ensures j <= e <= |lines|
    ensures forall k :: j <= k < e ==> IsRowLine(lines[k])
    ensures e < |lines| ==> !IsRowLine(lines[e])
    decreases |lines| - j
  {
    if j < |lines| && IsRowLine(lines[j]) then RowRunEnd(lines, j + 1) else j
  }

  /** The end of the run of list lines starting at `j`. */
  function ListRunEnd(lines: seq<string>, j: nat): (e: nat)
    requires j <= |lines|
    ensures j <= e <= |lines|
    ensures forall k :: j <= k < e ==> IsListLine(lines[k])
    ensures e < |lines| ==> !IsListLine(lines[e])
    decreases |lines| - j
  {
    if j < |lines| && IsListLine(lines[j]) then ListRunEnd(lines, j + 1) else j
  }

  /** Each data cell bold-formatted. */
  function FormatCells(cells: seq<string>): (r: seq<seq<Segment>>)
    ensures |r| == |cells|
  {
    seq(|cells|, k requires 0 <= k < |cells| => Format(cells[k]))
  }

  /** The cells of one table data row. */
  function RowOf(line: string): seq<seq<Segment>> {
    FormatCells(Cells(Trim(line)))
  }

  /** The text of one list item: the trimmed line without its `- `, bold-formatted. */
  function ItemOf(line: string): seq<Segment> {
    Format(Substring(Trim(line), 2))
  }

  /** What `f` makes of each of lines `a` up to `b`, one result per line, in order. */
  function MapLines<T>(f: string -> T, lines: seq<string>, a: nat, b: nat): (r: seq<T>)
    requires a <= b <= |lines|
    ensures |r| == b - a
    ensures forall k :: 0 <= k < b - a ==> r[k] == f(lines[a + k])
    decreases b - a
  {
    if a == b then [] else MapLines(f, lines, a, b - 1) + [f(lines[b - 1])]
  }

  /** What one turn of the scanner does at cursor `i`: the node it emits, if
      any, and the cursor it leaves behind. */
  datatype Step = Step(node: Option<Node>, next: nat)

  /** The nodes an optional node contributes to the output. */
  function Emitted(node: Option<Node>): seq<Node> {
    if node.Some? then [node.value] else []
  }

  /** The one-line rules, in their priority order, for a trimmed line that
      starts neither a table nor a list: `### `, `#### `, special phrase,
      blank, paragraph. Exactly the blank line emits nothing. */
  function LineNode(t: string): (node: Option<Node>)
    ensures node.None? <==> t == ""
  {
    if StartsWith(t, "### ") then Some(Heading(2, Substring(t, 4)))
    else if StartsWith(t, "#### ") then Some(Heading(3, Substring(t, 5)))
    else if Includes(t, SpecialPhrase) then Some(Paragraph([Plain(t)], true))
    else if t == "" then None
    else Some(Paragraph(Format(t), false))
  }

  /** The rules in their priority order: table, list, then the one-line rules.
      A table consumes its header, its separator and its rows; a list one line
      per item; every other rule one line. */
  function StepAt(lines: seq<string>, i: nat): (st: Step)
    requires i < |lines|
    ensures i < st.next <= |lines|
    ensures st.node.Some? && st.node.value.Table? ==>
              st.next >= i + 2 && |st.node.value.rows| == st.next - i - 2
    ensures st.node.Some? && st.node.value.List? ==> |st.node.value.items| == st.next - i
    ensures !(st.node.Some? && (st.node.value.Table? || st.node.value.List?)) ==> st.next == i + 1
  {
    var t := Trim(lines[i]);
    if IsTableStart(lines, i) then
      var e := RowRunEnd(lines, i + 2);
      Step(Some(Table(Cells(t), MapLines(RowOf, lines, i + 2, e))), e)
    else if StartsWith(t, "- ") then
      var e := ListRunEnd(lines, i);
      Step(Some(List(MapLines(ItemOf, lines, i, e))), e)
    else
      Step(LineNode(t), i + 1)
  }

  /** The nodes the scanner emits from cursor `i` to the end: never more than
      there are lines left. */
  function RenderFrom(lines: seq<string>, i: nat): (nodes: seq<Node>)
    requires i <= |lines|
    ensures |nodes| <= |lines| - i
    decreases |lines| - i
  {
    if i == |lines| then []
    else
      var st := StepAt(lines, i);
      Emitted(st.node) + RenderFrom(lines, st.next)
  }

  /** The nodes rendered from the whole text: none for empty text, and never
      more than the text has lines. */
  function Render(text: string): (nodes: seq<Node>)
    ensures text == "" ==> nodes == []
    ensures |nodes| <= Count(text, '\n') + 1
  {
    if text == "" then [] else RenderFrom(Split(text, '\n'), 0)
  }

  // ------------------------------------------------------- line coverage

  /** The cursor positions a scan stops at from `i`, when the block read at
      `j` moves the cursor on to `next(j)`, until the cursor reaches `end`. */
  ghost function Tiles(next: nat -> nat, i: nat, end: nat): seq<nat>
    requires i <= end
    requires forall j :: i <= j < end ==> j < next(j) <= end
    decreases end - i
  {
    if i == end then [] else [i] + Tiles(next, next(i), end)
  }

  /** The blocks tile the lines from `i` to `end`: the first starts at `i`,
      each starts where the one before stopped, the last stops at `end`. */
  lemma {:induction false} TilesCover(next: nat -> nat, i: nat, end: nat)
    requires i <= end
    requires forall j :: i <= j < end ==> j < next(j) <= end
    ensures var cs := Tiles(next, i, end); cs == [] <==> i == end
    ensures var cs := Tiles(next, i, end); forall k :: 0 <= k < |cs| ==> i <= cs[k] < end
    ensures var cs := Tiles(next, i, end); cs != [] ==> cs[0] == i && next(cs[|cs| - 1]) == end
    ensures var cs := Tiles(next, i, end); forall k :: 0 <= k < |cs| - 1 ==> cs[k + 1] == next(cs[k])
    decreases end - i
  {
    if i < end {
      TilesCover(next, next(i), end);
      var cs, rest := Tiles(next, i, end), Tiles(next, next(i), end);
      assert forall k :: 0 < k < |cs| ==> cs[k] == rest[k - 1];
    }
  }

  /** Each position from `i` to `end` lies in exactly one block: the `k`-th. */
  lemma {:induction false} TilesOnce(next: nat -> nat, i: nat, end: nat, j: nat) returns (k: nat)
    requires i <= j < end
    requires forall j :: i <= j < end ==> j < next(j) <= end
    ensures var cs := Tiles(next, i, end); k < |cs| && cs[k] <= j < next(cs[k])
    ensures var cs := Tiles(next, i, end);
            forall m :: 0 <= m < |cs| && cs[m] <= j < next(cs[m]) ==> m == k
    decreases end - i
  {
    var n := next(i);
    var cs := Tiles(next, i, end);
    if j < n {
      k := 0;
      if n < end {
        TilesCover(next, n, end);
        var rest := Tiles(next, n, end);
        forall m | 0 < m < |cs| ensures cs[m] > j {
          assert cs[m] == rest[m - 1];
        }
      }
    } else {
      var rest := Tiles(next, n, end);
      var k' := TilesOnce(next, n, end, j);
      k := k' + 1;
      forall m | 0 < m < |cs| && cs[m] <= j < next(cs[m]) ensures m == k {
        assert cs[m] == rest[m - 1];
      }
    }
  }

  /** Where the cursor goes after the block read at line `j`. (Past the last
      line the cursor never stands; the value there only makes this total.) */
  function NextCursor(lines: seq<string>, j: nat): (n: nat)
    ensures j < |lines| ==> j < n <= |lines|
  {
    if j < |lines| then StepAt(lines, j).next else j + 1
  }

  /** The lines at which the scanner reads a block, from line `i` on. */
  ghost function Cursors(lines: seq<string>, i: nat): seq<nat>
    requires i <= |lines|
  {
    Tiles(j => NextCursor(lines, j), i, |lines|)
  }

  /** Every line from `i` on is read exactly once, as part of the `k`-th block:
      the blocks follow each other without gap or overlap up to the last line. */
  lemma LineReadOnce(lines: seq<string>, i: nat, j: nat) returns (k: nat)
    requires i <= j < |lines|
    ensures var cs := Cursors(lines, i); k < |cs| && cs[k] <= j < NextCursor(lines, cs[k])
    ensures var cs := Cursors(lines, i);
            forall m :: 0 <= m < |cs| && cs[m] <= j < NextCursor(lines, cs[m]) ==> m == k
  {
    k := TilesOnce(j => NextCursor(lines, j), i, |lines|, j);
  }

  /** The scanner's stops from `i`: the first is `i`, each block starts where
      the previous stopped, and the last block ends at the last line. */
  lemma CursorsTile(lines: seq<string>, i: nat)
    requires i <= |lines|
    ensures var cs := Cursors(lines, i); cs == [] <==> i == |lines|
    ensures var cs := Cursors(lines, i); forall k :: 0 <= k < |cs| ==> i <= cs[k] < |lines|
    ensures var cs := Cursors(lines, i); cs != [] ==> cs[0] == i && NextCursor(lines, cs[|cs| - 1]) == |lines|
    ensures var cs := Cursors(lines, i); forall k :: 0 <= k < |cs| - 1 ==> cs[k + 1] == NextCursor(lines, cs[k])
  {
    TilesCover(j => NextCursor(lines, j), i, |lines|);
  }

  // ------------------------------------------------------------ the rules

  /** Table rule: a header line followed by a separator line becomes one table
      whose headers are the header line's literal cells and whose rows are the
      bold-formatted cells of the maximal run of pipe lines after the separator. */
  lemma TableRule(lines: seq<string>, i: nat)
    requires i < |lines| && IsTableStart(lines, i)
    ensures var e := RowRunEnd(lines, i + 2);
            RenderFrom(lines, i)
            == [Table(Cells(Trim(lines[i])), MapLines(RowOf, lines, i + 2, e))] + RenderFrom(lines, e)
  {
  }

  /** List rule: a maximal run of `- ` lines becomes one list, one item per line. */
  lemma ListRule(lines: seq<string>, i: nat)
    requires i < |lines| && IsListLine(lines[i])
    ensures var e := ListRunEnd(lines, i);
            RenderFrom(lines, i) == [List(MapLines(ItemOf, lines, i, e))] + RenderFrom(lines, e)
  {
    assert !IsTableStart(lines, i) by {
      assert Trim(lines[i])[0] == '-';
    }
  }

  /** A line that starts neither a table nor a list is handled by the one-line rules alone. */
  lemma LineRule(lines: seq<string>, i: nat)
    requires i < |lines| && !IsTableStart(lines, i) && !IsListLine(lines[i])
    ensures RenderFrom(lines, i) == Emitted(LineNode(Trim(lines[i]))) + RenderFrom(lines, i + 1)
  {
  }

  /** A `### ` line is a level-2 heading holding the rest of the trimmed line as literal text. */
  lemma HeadingRule(lines: seq<string>, i: nat)
    requires i < |lines| && StartsWith(Trim(lines[i]), "### ")
    ensures RenderFrom(lines, i) == [Heading(2, Substring(Trim(lines[i]), 4))] + RenderFrom(lines, i + 1)
  {
    var t := Trim(lines[i]);
    assert t[0] == '#';
    assert !IsTableStart(lines, i) && !IsListLine(lines[i]);
    LineRule(lines, i);
  }

  /** A `#### ` line is a level-3 heading holding the rest of the trimmed line as literal text. */
  lemma SubheadingRule(lines: seq<string>, i: nat)
    requires i < |lines| && StartsWith(Trim(lines[i]), "#### ")
    ensures RenderFrom(lines, i) == [Heading(3, Substring(Trim(lines[i]), 5))] + RenderFrom(lines, i + 1)
  {
    var t := Trim(lines[i]);
    assert t[0] == '#' && t[3] == '#';
    assert !IsTableStart(lines, i) && !IsListLine(lines[i]) && !StartsWith(t, "### ");
    LineRule(lines, i);
  }

  /** A line that starts no table, list or heading and contains the special
      phrase is an emphasized paragraph holding the whole trimmed line as literal text. */
  lemma PhraseRule(lines: seq<string>, i: nat)
    requires i < |lines| && !IsTableStart(lines, i)
    requires var t := Trim(lines[i]);
             !StartsWith(t, "- ") && !StartsWith(t, "### ") && !StartsWith(t, "#### ")
             && Includes(t, SpecialPhrase)
    ensures RenderFrom(lines, i) == [Paragraph([Plain(Trim(lines[i]))], true)] + RenderFrom(lines, i + 1)
  {
    LineRule(lines, i);
  }

  /** A blank line emits nothing and is passed over. */
  lemma BlankRule(lines: seq<string>, i: nat)
    requires i < |lines| && Trim(lines[i]) == ""
    ensures RenderFrom(lines, i) == RenderFrom(lines, i + 1)
  {
    assert !IsTableStart(lines, i) && !IsListLine(lines[i]);
    LineRule(lines, i);
  }

  /** Any other line is a paragraph of the bold-formatted trimmed line. */
  lemma ParagraphRule(lines: seq<string>, i: nat)
    requires i < |lines| && !IsTableStart(lines, i)
    requires var t := Trim(lines[i]);
             !StartsWith(t, "- ") && !StartsWith(t, "### ") && !StartsWith(t, "#### ")
             && !Includes(t, SpecialPhrase) && t != ""
    ensures RenderFrom(lines, i) == [Paragraph(Format(Trim(lines[i])), false)] + RenderFrom(lines, i + 1)
  {
    LineRule(lines, i);
  }

  // ---------------------------------------------------------- the scanner

  /** The table-row loop: one row of bold-formatted cells for each line of the
      run of row lines starting at `from`, and the cursor just past that run. */
  method ReadTableRows(lines: seq<string>, from: nat) returns (rows: seq<seq<seq<Segment>>>, next: nat)
    requires from <= |lines|
    ensures next == RowRunEnd(lines, from)
    ensures rows == MapLines(RowOf, lines, from, next)
  {
    rows := [];
    next := from;
    while next < |lines| && StartsWith(Trim(lines[next]), "|")
      invariant from <= next <= |lines|
      invariant RowRunEnd(lines, next) == RowRunEnd(lines, from)
      invariant rows == MapLines(RowOf, lines, from, next)
      decreases |lines| - next
    {
      var rowLine := Trim(lines[next]);
      var cells := Cells(rowLine);
      rows := rows + [FormatCells(cells)];
      next := next + 1;
    }
  }

  /** The list loop: one bold-formatted item for each line of the run of `- `
      lines starting at `from`, and the cursor just past that run. */
  method ReadListItems(lines: seq<string>, from: nat) returns (items: seq<seq<Segment>>, next: nat)
    requires from <= |lines|
    ensures next == ListRunEnd(lines, from)
    ensures items == MapLines(ItemOf, lines, from, next)
  {
    items := [];
    next := from;
    while next < |lines| && StartsWith(Trim(lines[next]), "- ")
      invariant from <= next <= |lines|
      invariant ListRunEnd(lines, next) == ListRunEnd(lines, from)
      invariant items == MapLines(ItemOf, lines, from, next)
      decreases |lines| - next
    {
      var itemText := Substring(Trim(lines[next]), 2);
      items := items + [Format(itemText)];
      next := next + 1;
    }
  }

  /** One turn of the outer loop at cursor `i`: the block that starts there is
      appended to the output, and the cursor moves past it. */
  method EmitBlock(lines: seq<string>, i: nat, before: seq<Node>) returns (elements: seq<Node>, next: nat)
    requires i < |lines|
    ensures elements == before + Emitted(StepAt(lines, i).node)
    ensures next == StepAt(lines, i).next
  {
    elements := before;
    var trimmedLine := Trim(lines[i]);
    var isTableLine := StartsWith(trimmedLine, "|") && EndsWith(trimmedLine, "|");

    if isTableLine && i + 1 < |lines| && IsSeparatorLine(lines[i + 1]) {
      var headerCells := Cells(trimmedLine);
      var tableRows;
      tableRows, next := ReadTableRows(lines, i + 2);
      elements := elements + [Table(headerCells, tableRows)];
      return;
    }

    if StartsWith(trimmedLine, "- ") {
      var listItems;
      listItems, next := ReadListItems(lines, i);
      elements := elements + [List(listItems)];
      return;
    }

    if StartsWith(trimmedLine, "### ") {
      elements := elements + [Heading(2, Substring(trimmedLine, 4))];
    } else if StartsWith(trimmedLine, "#### ") {
      elements := elements + [Heading(3, Substring(trimmedLine, 5))];
    } else if Includes(trimmedLine, SpecialPhrase) {
      elements := elements + [Paragraph([Plain(trimmedLine)], true)];
    } else if trimmedLine != "" {
      elements := elements + [Paragraph(Format(trimmedLine), false)];
    }
    next := i + 1;
  }

  /** Appending what one turn emits and moving the cursor past it keeps the
      loop's account: output so far plus output still to come is the whole. */
  lemma Advance(lines: seq<string>, i: nat, before: seq<Node>, after: seq<Node>)
    requires i < |lines|
    requires before + RenderFrom(lines, i) == RenderFrom(lines, 0)
    requires after == before + Emitted(StepAt(lines, i).node)
    ensures after + RenderFrom(lines, StepAt(lines, i).next) == RenderFrom(lines, 0)
  {
  }

  /** `parseAndRender`: the scanner itself, a cursor over the lines that
      emits one block per turn until the lines run out. */
  method ParseAndRender(text: string) returns (elements: seq<Node>)
    ensures elements == Render(text)
  {
    if text == "" {
      return [];
    }
    var lines := Split(text, '\n');
    elements := [];
    var i := 0;
    while i < |lines|
      invariant i <= |lines|
      invariant elements + RenderFrom(lines, i) == RenderFrom(lines, 0)
      decreases |lines| - i
    {
      ghost var before, start := elements, i;
      elements, i := EmitBlock(lines, i, elements);
      Advance(lines, start, before, elements);
    }
  }
}
