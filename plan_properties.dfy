/**
 * What the scanner does to whole runs of lines: how many lines a table or a
 * list consumes, what plain text turns into, why the empty-text guard changes
 * nothing, and why only the trimmed form of a line matters.
 */
module PlanProperties {
  import opened JsText
  import opened Inline
  import opened Tables
  import opened PlanRenderer

  // ------------------------------------------------------------ run lengths

  /** The row run from `j` ends at `e` when lines `j` up to `e` are row lines and line `e` is not. */
  lemma {:induction false} RowRunEndIs(lines: seq<string>, j: nat, e: nat)
    requires j <= e <= |lines|
    requires forall k :: j <= k < e ==> IsRowLine(lines[k])
    requires e < |lines| ==> !IsRowLine(lines[e])
    ensures RowRunEnd(lines, j) == e
    decreases e - j
  {
    if j < e {
      RowRunEndIs(lines, j + 1, e);
    }
  }

  /** The list run from `j` ends at `e` when lines `j` up to `e` are list lines and line `e` is not. */
  lemma {:induction false} ListRunEndIs(lines: seq<string>, j: nat, e: nat)
    requires j <= e <= |lines|
    requires forall k :: j <= k < e ==> IsListLine(lines[k])
    requires e < |lines| ==> !IsListLine(lines[e])
    ensures ListRunEnd(lines, j) == e
    decreases e - j
  {
    if j < e {
      ListRunEndIs(lines, j + 1, e);
    }
  }

  /** A header, a separator and the row lines up to `e`, followed by a line
      that is not a row line (or by nothing), make exactly one table with
      `e - i - 2` rows, and the next node starts at line `e`. */
  lemma TableExtent(lines: seq<string>, i: nat, e: nat)
    requires i + 2 <= e <= |lines| && IsTableStart(lines, i)
    requires forall k :: i + 2 <= k < e ==> IsRowLine(lines[k])
    requires e < |lines| ==> !IsRowLine(lines[e])
    ensures |MapLines(RowOf, lines, i + 2, e)| == e - i - 2
    ensures RenderFrom(lines, i) == [Table(Cells(Trim(lines[i])), MapLines(RowOf, lines, i + 2, e))] + RenderFrom(lines, e)
  {
    RowRunEndIs(lines, i + 2, e);
    TableAt(lines, i, e);
  }

  /** The table rule with the end of the row run named. */
  lemma TableAt(lines: seq<string>, i: nat, e: nat)
    requires i < |lines| && IsTableStart(lines, i) && i + 2 <= e <= |lines| && RowRunEnd(lines, i + 2) == e
    ensures RenderFrom(lines, i) == [Table(Cells(Trim(lines[i])), MapLines(RowOf, lines, i + 2, e))] + RenderFrom(lines, e)
  {
    TableRule(lines, i);
  }

  /** `n` list lines followed by a line that is not a list line (or by nothing)
      make exactly one list with `n` items, and the next node starts `n` lines on. */
  lemma ListExtent(lines: seq<string>, i: nat, n: nat)
    requires 0 < n && i + n <= |lines|
    requires forall k :: i <= k < i + n ==> IsListLine(lines[k])
    requires i + n < |lines| ==> !IsListLine(lines[i + n])
    ensures var items := MapLines(ItemOf, lines, i, i + n);
            |items| == n && RenderFrom(lines, i) == [List(items)] + RenderFrom(lines, i + n)
  {
    ListRunEndIs(lines, i, i + n);
    ListRule(lines, i);
  }

  /** A run of row lines from `a` to `b` takes the row-line run from `a` at least to `b`. */
  lemma {:induction false} RowRunReaches(lines: seq<string>, a: nat, b: nat)
    requires a <= b <= |lines|
    requires forall k :: a <= k < b ==> IsRowLine(lines[k])
    ensures b <= RowRunEnd(lines, a)
    decreases b - a
  {
    if a < b {
      RowRunReaches(lines, a + 1, b);
    }
  }

  /** The header and separator lines of a table both start with a pipe. */
  lemma TableStartRows(lines: seq<string>, j: nat)
    requires j < |lines| && IsTableStart(lines, j)
    ensures j + 1 < |lines| && IsRowLine(lines[j]) && IsRowLine(lines[j + 1])
  {
  }

  /** Row lines from `a` up to `j`, then two more row lines: the run from `a` reaches past both. */
  lemma RowRunPastPair(lines: seq<string>, a: nat, j: nat)
    requires a <= j && j + 1 < |lines|
    requires forall k :: a <= k < j ==> IsRowLine(lines[k])
    requires IsRowLine(lines[j]) && IsRowLine(lines[j + 1])
    ensures j + 2 <= RowRunEnd(lines, a)
  {
    forall k | a <= k < j + 2 ensures IsRowLine(lines[k]) {
      if k >= j {
        assert k == j || k == j + 1;
      }
    }
    RowRunReaches(lines, a, j + 2);
  }

  /** A second table directly below a table's rows is no table of its own:
      its header and separator lines start with a pipe, so the first table
      takes them, and whatever rows follow them, as data rows. */
  lemma AdjacentTableSwallowed(lines: seq<string>, i: nat, j: nat)
    requires i + 2 <= j < |lines| && IsTableStart(lines, i) && IsTableStart(lines, j)
    requires forall k :: i + 2 <= k < j ==> IsRowLine(lines[k])
    ensures var e := RowRunEnd(lines, i + 2);
            j + 2 <= e &&
            RenderFrom(lines, i) == [Table(Cells(Trim(lines[i])), MapLines(RowOf, lines, i + 2, e))] + RenderFrom(lines, e)
  {
    TableStartRows(lines, j);
    RowRunPastPair(lines, i + 2, j);
    TableRule(lines, i);
  }

  // ----------------------------------------------------------- falling through

  /** A line that starts with a pipe but has no separator line after it starts
      no table: it is a paragraph of its own (emphasized if it holds the
      special phrase), and the line after it is scanned afresh. */
  lemma PipeLineWithoutSeparator(lines: seq<string>, i: nat)
    requires i < |lines| && StartsWith(Trim(lines[i]), "|")
    requires !(i + 1 < |lines| && IsSeparatorLine(lines[i + 1]))
    ensures var t := Trim(lines[i]);
            RenderFrom(lines, i)
            == [if Includes(t, SpecialPhrase) then Paragraph([Plain(t)], true) else Paragraph(Format(t), false)]
               + RenderFrom(lines, i + 1)
  {
    var t := Trim(lines[i]);
    assert t[0] == '|';
    assert !IsListLine(lines[i]) && !StartsWith(t, "### ") && !StartsWith(t, "#### ");
    LineRule(lines, i);
  }

  /** A next line in which no pipe is directly followed by a dash or a colon,
      as in the spaced form `| --- |`, is no separator: the line above starts
      no table. */
  lemma SpacedSeparatorNoTable(lines: seq<string>, i: nat)
    requires i + 1 < |lines|
    requires var u := Trim(lines[i + 1]);
             forall k :: 0 <= k < |u| - 1 && u[k] == '|' ==> u[k + 1] != '-' && u[k + 1] != ':'
    ensures !IsTableStart(lines, i)
  {
    SeparatorNeedsDash(Trim(lines[i + 1]), 0);
  }

  // ----------------------------------------------------------- empty text

  /** The early return for empty text changes nothing: without it, the one
      empty line that splitting empty text gives is blank and emits nothing. */
  lemma EmptyGuardRedundant()
    ensures RenderFrom(Split("", '\n'), 0) == []
  {
    var lines := Split("", '\n');
    assert lines == [""];
    BlankRule(lines, 0);
  }

  // ----------------------------------------------------------- plain text

  /** A trimmed line none of whose characters or prefixes any rule reacts to. */
  predicate PlainLine(t: string) {
    !StartsWith(t, "|") && !StartsWith(t, "- ") && !StartsWith(t, "### ") && !StartsWith(t, "#### ")
    && !Includes(t, SpecialPhrase) && NoMarker(t)
  }

  /** One literal paragraph per non-blank line from `i` on, in order. */
  function LiteralParagraphs(lines: seq<string>, i: nat): (nodes: seq<Node>)
    requires i <= |lines|
    ensures |nodes| <= |lines| - i
    decreases |lines| - i
  {
    if i == |lines| then []
    else
      var t := Trim(lines[i]);
      (if t == "" then [] else [Paragraph([Plain(t)], false)]) + LiteralParagraphs(lines, i + 1)
  }

  /** Text in which no line is a table, list, heading or special line and no
      line holds a `**` renders as one unformatted paragraph per non-blank
      line, each holding the trimmed line. */
  lemma {:induction false} PlainLinesAreParagraphs(lines: seq<string>, i: nat)
    requires i <= |lines|
    requires forall k :: i <= k < |lines| ==> PlainLine(Trim(lines[k]))
    ensures RenderFrom(lines, i) == LiteralParagraphs(lines, i)
    decreases |lines| - i
  {
    if i < |lines| {
      var t := Trim(lines[i]);
      assert PlainLine(t);
      PlainLinesAreParagraphs(lines, i + 1);
      if t == "" {
        BlankRule(lines, i);
      } else {
        assert !IsTableStart(lines, i);
        FormatWithoutMarkers(t);
        ParagraphRule(lines, i);
      }
    }
  }

  // ----------------------------------------------------------- trimming

  /** Two line sequences of the same length whose lines trim alike from `j` on. */
  predicate SameTrims(lines: seq<string>, other: seq<string>, j: nat) {
    |lines| == |other| && forall k :: j <= k < |lines| ==> Trim(lines[k]) == Trim(other[k])
  }

  lemma {:induction false} SameTrimsRowRun(lines: seq<string>, other: seq<string>, j: nat)
    requires j <= |lines| && SameTrims(lines, other, j)
    ensures RowRunEnd(lines, j) == RowRunEnd(other, j)
    decreases |lines| - j
  {
    if j < |lines| {
      SameTrimsRowRun(lines, other, j + 1);
    }
  }

  lemma {:induction false} SameTrimsListRun(lines: seq<string>, other: seq<string>, j: nat)
    requires j <= |lines| && SameTrims(lines, other, j)
    ensures ListRunEnd(lines, j) == ListRunEnd(other, j)
    decreases |lines| - j
  {
    if j < |lines| {
      SameTrimsListRun(lines, other, j + 1);
    }
  }

  lemma {:induction false} SameMapLines<T>(f: string -> T, lines: seq<string>, other: seq<string>, a: nat, b: nat)
    requires a <= b <= |lines| == |other|
    requires forall k :: a <= k < b ==> f(lines[k]) == f(other[k])
    ensures MapLines(f, lines, a, b) == MapLines(f, other, a, b)
    decreases b - a
  {
    if a < b {
      SameMapLines(f, lines, other, a, b - 1);
    }
  }

  /** What the scanner does at one cursor depends on the lines only through their trimmed forms. */
  lemma SameTrimsStep(lines: seq<string>, other: seq<string>, i: nat)
    requires i < |lines| && SameTrims(lines, other, i)
    ensures StepAt(lines, i) == StepAt(other, i)
  {
    if i + 1 < |lines| {
      assert Trim(lines[i + 1]) == Trim(other[i + 1]);
    }
    assert IsTableStart(lines, i) == IsTableStart(other, i);
    if IsTableStart(lines, i) {
      SameTrimsTable(lines, other, i);
    } else if IsListLine(lines[i]) {
      SameTrimsList(lines, other, i);
    }
  }

  lemma SameTrimsTable(lines: seq<string>, other: seq<string>, i: nat)
    requires i + 2 <= |lines| && SameTrims(lines, other, i)
    ensures RowRunEnd(lines, i + 2) == RowRunEnd(other, i + 2)
    ensures var e := RowRunEnd(lines, i + 2);
            MapLines(RowOf, lines, i + 2, e) == MapLines(RowOf, other, i + 2, e)
  {
    SameTrimsRowRun(lines, other, i + 2);
    var e := RowRunEnd(lines, i + 2);
    forall k | i + 2 <= k < e ensures RowOf(lines[k]) == RowOf(other[k]) {
      assert Trim(lines[k]) == Trim(other[k]);
    }
    SameMapLines(RowOf, lines, other, i + 2, e);
  }

  lemma SameTrimsList(lines: seq<string>, other: seq<string>, i: nat)
    requires i <= |lines| && SameTrims(lines, other, i)
    ensures ListRunEnd(lines, i) == ListRunEnd(other, i)
    ensures var e := ListRunEnd(lines, i);
            MapLines(ItemOf, lines, i, e) == MapLines(ItemOf, other, i, e)
  {
    SameTrimsListRun(lines, other, i);
    var e := ListRunEnd(lines, i);
    forall k | i <= k < e ensures ItemOf(lines[k]) == ItemOf(other[k]) {
      assert Trim(lines[k]) == Trim(other[k]);
    }
    SameMapLines(ItemOf, lines, other, i, e);
  }

  /** The rendered output depends on the lines only through their trimmed forms. */
  lemma {:induction false} SameTrimsRender(lines: seq<string>, other: seq<string>, i: nat)
    requires i <= |lines| && SameTrims(lines, other, i)
    ensures RenderFrom(lines, i) == RenderFrom(other, i)
    decreases |lines| - i
  {
    if i < |lines| {
      SameTrimsStep(lines, other, i);
      SameTrimsRender(lines, other, StepAt(lines, i).next);
    }
  }

  /** Lines that differ from `lines` at most by a carriage return at their
      end, as splitting CRLF text on line feeds leaves them (every line but
      the last keeps its CR), render exactly as `lines`. */
  lemma CarriageReturnsIgnored(lines: seq<string>, crlf: seq<string>)
    requires |crlf| == |lines|
    requires forall k :: 0 <= k < |lines| ==> crlf[k] == lines[k] || crlf[k] == lines[k] + "\r"
    ensures RenderFrom(crlf, 0) == RenderFrom(lines, 0)
  {
    forall k | 0 <= k < |lines| ensures Trim(crlf[k]) == Trim(lines[k]) {
      if crlf[k] != lines[k] {
        TrimDropsCarriageReturn(lines[k]);
      }
    }
    SameTrimsRender(crlf, lines, 0);
  }

  /** The lines CRLF text keeps after splitting on line feeds: a carriage
      return at the end of every line but the last. */
  function CrlfLines(lines: seq<string>): (crlf: seq<string>)
    ensures |crlf| == |lines|
    ensures forall k :: 0 <= k < |lines| ==> crlf[k] == lines[k] || crlf[k] == lines[k] + "\r"
    ensures forall k :: 0 <= k < |lines| - 1 ==> crlf[k] == lines[k] + "\r"
  {
    seq(|lines|, k requires 0 <= k < |lines| => if k < |lines| - 1 then lines[k] + "\r" else lines[k])
  }

  /** Text written with CRLF line endings renders exactly as the same lines
      written with LF endings. */
  lemma CrlfTextRendersAsLf(lines: seq<string>)
    requires forall k :: 0 <= k < |lines| ==> '\n' !in lines[k]
    ensures Render(Join(CrlfLines(lines), '\n')) == Render(Join(lines, '\n'))
  {
    var crlf := CrlfLines(lines);
    if |lines| <= 1 {
      assert crlf == lines;
    } else {
      forall k | 0 <= k < |crlf| ensures '\n' !in crlf[k] {
        assert crlf[k] == lines[k] || crlf[k] == lines[k] + "\r";
      }
      SplitJoin(crlf, '\n');
      SplitJoin(lines, '\n');
      assert Join(crlf, '\n') != "" && Join(lines, '\n') != "";
      CarriageReturnsIgnored(lines, crlf);
    }
  }
}
