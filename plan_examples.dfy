/**
 * Worked inputs for the renderer, each proved against the specification
 * `Render`: what a short plan text turns into, rule by rule.
 */
module PlanExamples {
  import opened JsText
  import opened Inline
  import opened Tables
  import opened PlanRenderer

  /** Two lines joined by a line break split back into those two lines. */
  lemma TwoLines(a: string, b: string)
    requires '\n' !in a && '\n' !in b
    ensures Split(a + "\n" + b, '\n') == [a, b]
  {
    SplitAtFirst(a, '\n', b);
    SplitWithoutSeparator(b, '\n');
  }

  /** One bold span alone on the line. */
  lemma FormatBoldOnly(w: string)
    requires '*' !in w && NoTerminatorIn(w, 0, |w|)
    ensures Format("**" + w + "**") == [Bold(w)]
  {
    AsteriskFreeLazy(w);
    FormatBoldFront(w, []);
    assert "**" + w + "**" + [] == "**" + w + "**";
  }

  lemma BoldLineRegroup(h: string, w: string)
    ensures h + ("**" + w + "**") == h + "**" + w + "**"
  {
  }

  /** Literal text, then one bold span closing the line. */
  lemma FormatLiteralThenBold(h: string, w: string)
    requires h != [] && '*' !in h && '*' !in w && NoTerminatorIn(w, 0, |w|)
    ensures Format(h + "**" + w + "**") == [Plain(h), Bold(w)]
  {
    var b := "**" + w + "**";
    FormatBoldOnly(w);
    FormatLiteralPrefix(h, b);
    BoldLineRegroup(h, w);
  }

  /** A two-line text renders as its two lines. */
  lemma RenderTwoLines(a: string, b: string)
    requires '\n' !in a && '\n' !in b
    ensures Render(a + "\n" + b) == RenderFrom([a, b], 0)
  {
    TwoLines(a, b);
    assert |a + "\n" + b| > 0;
  }

  /** A heading line with a title that does not end in whitespace. */
  lemma HeadingLine(title: string)
    requires title != [] && !IsJsWhitespace(title[|title| - 1]) && '\n' !in title
    ensures var l := "### " + title;
            Trim(l) == l && StartsWith(l, "### ") && Substring(l, 4) == title && '\n' !in l
  {
    var l := "### " + title;
    assert l[|l| - 1] == title[|title| - 1];
    TrimUnchanged(l);
    assert l[4..] == title;
  }

  /** A line of literal text followed by one bold span: trimmed already, and
      neither a table, list or heading line. */
  lemma BoldEndedLine(h: string, w: string)
    requires h != [] && '*' !in h && '\n' !in h && !IsJsWhitespace(h[0])
    requires h[0] != '|' && h[0] != '-' && h[0] != '#'
    requires NoTerminatorIn(w, 0, |w|)
    ensures var l := h + "**" + w + "**";
            Trim(l) == l && '\n' !in l && !StartsWith(l, "|")
            && !StartsWith(l, "- ") && !StartsWith(l, "### ") && !StartsWith(l, "#### ")
  {
    var l := h + "**" + w + "**";
    assert l[0] == h[0] && l[|l| - 1] == '*';
    TrimUnchanged(l);
    forall k | 0 <= k < |l| ensures l[k] != '\n' {
      if k < |h| {
        assert l[k] == h[k] && h[k] in h;
      } else if |h| + 2 <= k < |h| + 2 + |w| {
        assert l[k] == w[k - |h| - 2] && !IsLineTerminator(w[k - |h| - 2]);
      }
    }
  }

  /** A last line of literal text and one bold span is a paragraph of the two. */
  lemma LastParagraph(lines: seq<string>, h: string, w: string)
    requires |lines| == 2 && lines[1] == h + "**" + w + "**"
    requires h != [] && '*' !in h && '\n' !in h && !IsJsWhitespace(h[0])
    requires h[0] != '|' && h[0] != '-' && h[0] != '#'
    requires '*' !in w && NoTerminatorIn(w, 0, |w|)
    requires !Includes(h + "**" + w + "**", SpecialPhrase)
    ensures RenderFrom(lines, 1) == [Paragraph([Plain(h), Bold(w)], false)]
  {
    BoldEndedLine(h, w);
    FormatLiteralThenBold(h, w);
    ParagraphRule(lines, 1);
  }

  /** A `### ` heading over a paragraph that ends in one bold span: a level-2
      heading with the literal title, then a paragraph of the literal part and
      the bold part. */
  lemma HeadingThenParagraph(title: string, h: string, w: string)
    requires title != [] && !IsJsWhitespace(title[|title| - 1]) && '\n' !in title
    requires h != [] && '*' !in h && '\n' !in h && !IsJsWhitespace(h[0])
    requires h[0] != '|' && h[0] != '-' && h[0] != '#'
    requires '*' !in w && NoTerminatorIn(w, 0, |w|)
    requires !Includes(h + "**" + w + "**", SpecialPhrase)
    ensures Render(("### " + title) + "\n" + (h + "**" + w + "**"))
            == [Heading(2, title), Paragraph([Plain(h), Bold(w)], false)]
  {
    var l0, l1 := "### " + title, h + "**" + w + "**";
    HeadingLine(title);
    BoldEndedLine(h, w);
    FormatLiteralThenBold(h, w);
    var lines := [l0, l1];
    LastParagraph(lines, h, w);
    HeadingRule(lines, 0);
    RenderTwoLines(l0, l1);
  }
}
