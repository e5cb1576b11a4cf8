/**
 * The two pieces of table syntax the renderer recognises: the separator line
 * under a table header, and the cells of a header or data row.
 */
module Tables {
  import opened Optional
  import opened JsText

  // ------------------------------------------------------------ separator

  /** The text between the two pipes of a match of `\|-*:?--*:?\|`: dashes, an
      optional colon, at least one dash, an optional colon. Read backwards:
      drop a final colon; what is left must end in a dash, be made only of
      dashes and colons, and hold at most one colon. */
  predicate IsSepCell(w: string) {
    var body := SepBody(w);
    |body| > 0 && body[|body| - 1] == '-' && Count(body, ':') <= 1
    && forall k :: 0 <= k < |body| ==> body[k] == '-' || body[k] == ':'
  }

  /** `w` without a final colon. */
  function SepBody(w: string): string {
    if |w| > 0 && w[|w| - 1] == ':' then w[..|w| - 1] else w
  }

  function Dashes(n: nat): (d: string)
    ensures |d| == n && forall k :: 0 <= k < n ==> d[k] == '-'
  {
    seq(n, _ => '-')
  }

  /** The string `-*:?--*:?` matches when its repetitions are `lead` and `1 + more` dashes
      and its optional colons are `open` and `close`. */
  function SepCellOf(lead: nat, open: bool, more: nat, close: bool): string {
    Dashes(lead) + (if open then ":" else "") + Dashes(1 + more) + (if close then ":" else "")
  }

  /** The pattern's middle part, read directly off the regular expression. */
  ghost predicate MatchesSepCell(w: string) {
    exists lead, open, more, close :: w == SepCellOf(lead, open, more, close)
  }

  lemma CountDashes(n: nat)
    ensures Count(Dashes(n), ':') == 0
  {
    CountZero(Dashes(n), ':');
  }

  /** Every string the pattern's middle part matches passes the hand-written test. */
  lemma SepCellOfAccepted(lead: nat, open: bool, more: nat, close: bool)
    ensures IsSepCell(SepCellOf(lead, open, more, close))
  {
    var w := SepCellOf(lead, open, more, close);
    var o := if open then ":" else "";
    var body := Dashes(lead) + o + Dashes(1 + more);
    assert w == body + (if close then ":" else "");
    assert body[|body| - 1] == '-';
    assert SepBody(w) == body;
    CountAppend(Dashes(lead) + o, Dashes(1 + more), ':');
    CountAppend(Dashes(lead), o, ':');
    CountDashes(lead);
    CountDashes(1 + more);
    assert Count(o, ':') <= 1;
    forall k | 0 <= k < |body| ensures body[k] == '-' || body[k] == ':' {
      if k < lead {
        assert body[k] == Dashes(lead)[k];
      } else if k < lead + |o| {
        assert body[k] == o[k - lead];
      } else {
        assert body[k] == Dashes(1 + more)[k - lead - |o|];
      }
    }
  }

  /** A separator body without a colon is all dashes. */
  lemma BodyWithoutColon(body: string)
    requires forall k :: 0 <= k < |body| ==> body[k] == '-' || body[k] == ':'
    requires ':' !in body
    ensures body == Dashes(|body|)
  {
    forall k | 0 <= k < |body| ensures body[k] == Dashes(|body|)[k] {
      assert body[k] in body;
    }
  }

  /** A separator body whose one colon sits at `i` is dashes, that colon, dashes. */
  lemma BodyWithColon(body: string, i: nat)
    requires forall k :: 0 <= k < |body| ==> body[k] == '-' || body[k] == ':'
    requires Count(body, ':') <= 1 && i < |body| && body[i] == ':'
    ensures body == Dashes(i) + ":" + Dashes(|body| - i - 1)
  {
    var pre, post := body[..i], body[i + 1..];
    assert body == pre + [':'] + post;
    assert ':' !in pre && ':' !in post by {
      CountAppend(pre + [':'], post, ':');
      CountAppend(pre, [':'], ':');
      CountZero(pre, ':');
      CountZero(post, ':');
    }
    assert forall k :: 0 <= k < |pre| ==> pre[k] == body[k];
    assert forall k :: 0 <= k < |post| ==> post[k] == body[i + 1 + k];
    BodyWithoutColon(pre);
    BodyWithoutColon(post);
  }

  /** Every string that passes the hand-written test is matched by the pattern's middle part. */
  lemma SepCellShape(w: string) returns (lead: nat, open: bool, more: nat, close: bool)
    requires IsSepCell(w)
    ensures w == SepCellOf(lead, open, more, close)
  {
    close := |w| > 0 && w[|w| - 1] == ':';
    var body := SepBody(w);
    assert w == body + (if close then ":" else "");
    if ':' !in body {
      BodyWithoutColon(body);
      lead, open, more := 0, false, |body| - 1;
    } else {
      var i :| 0 <= i < |body| && body[i] == ':';
      BodyWithColon(body, i);
      lead, open, more := i, true, |body| - i - 2;
    }
  }

  /** The hand-written test accepts exactly the strings the pattern's middle part matches. */
  lemma SepCellMatches(w: string)
    ensures IsSepCell(w) <==> MatchesSepCell(w)
  {
    if MatchesSepCell(w) {
      var lead, open, more, close :| w == SepCellOf(lead, open, more, close);
      SepCellOfAccepted(lead, open, more, close);
    }
    if IsSepCell(w) {
      var lead, open, more, close := SepCellShape(w);
    }
  }

  /** The first pipe at or after offset `j`. */
  function NextPipe(t: string, j: nat): (r: Option<nat>)
    requires j <= |t|
    ensures r.Some? ==> j <= r.value < |t| && t[r.value] == '|'
    ensures r.Some? ==> forall k :: j <= k < r.value ==> t[k] != '|'
    ensures r.None? ==> forall k :: j <= k < |t| ==> t[k] != '|'
    decreases |t| - j
  {
    if j == |t| then None
    else if t[j] == '|' then Some(j)
    else NextPipe(t, j + 1)
  }

  /** The pattern matches starting at offset `i`: a pipe, then separator-cell
      text up to the next pipe. (Separator-cell text holds no pipe, so a match
      from `i` can only end at the next one.) */
  predicate SepSegmentAt(t: string, i: nat)
    requires i < |t|
  {
    t[i] == '|' &&
    match NextPipe(t, i + 1)
    case Some(j) => IsSepCell(t[i + 1..j])
    case None => false
  }

  /** `/\|-*:?--*:?\|/.test(t.substring(i))`: the pattern matches at some offset from `i` on. */
  predicate HasSepSegment(t: string, i: nat)
    requires i <= |t|
    decreases |t| - i
  {
    i < |t| && (SepSegmentAt(t, i) || HasSepSegment(t, i + 1))
  }

  /** A match of the whole pattern `\|-*:?--*:?\|` occupying `t[i..j + 1]`. */
  ghost predicate SeparatorMatch(t: string, i: int, j: int) {
    0 <= i < j < |t| && t[i] == '|' && t[j] == '|' && MatchesSepCell(t[i + 1..j])
  }

  lemma SepCellHasNoPipe(w: string)
    requires IsSepCell(w)
    ensures '|' !in w
  {
    var body := SepBody(w);
    forall k | 0 <= k < |w| ensures w[k] != '|' {
      if k < |body| {
        assert w[k] == body[k];
      }
    }
  }

  /** A match starting at offset `a` is found by the scan at `a`. */
  lemma SeparatorMatchFound(t: string, a: nat, b: nat)
    requires SeparatorMatch(t, a, b)
    ensures SepSegmentAt(t, a)
  {
    SepCellMatches(t[a + 1..b]);
    SepCellHasNoPipe(t[a + 1..b]);
    forall k | a + 1 <= k < b ensures t[k] != '|' {
      assert t[k] == t[a + 1..b][k - a - 1];
    }
    assert NextPipe(t, a + 1) == Some(b);
  }

  /** What the scan finds at offset `a` is a match of the pattern. */
  lemma SepSegmentMatches(t: string, a: nat) returns (b: nat)
    requires a < |t| && SepSegmentAt(t, a)
    ensures SeparatorMatch(t, a, b)
  {
    b := NextPipe(t, a + 1).value;
    SepCellMatches(t[a + 1..b]);
  }

  /** The scan finds a separator segment exactly when the regular expression has a match. */
  lemma {:induction false} SeparatorSearch(t: string, i: nat)
    requires i <= |t|
    ensures HasSepSegment(t, i) <==> exists a, b :: i <= a && SeparatorMatch(t, a, b)
    decreases |t| - i
  {
    if i < |t| {
      SeparatorSearch(t, i + 1);
      if SepSegmentAt(t, i) {
        var b := SepSegmentMatches(t, i);
      }
      if exists a, b :: i <= a && SeparatorMatch(t, a, b) {
        var a, b :| i <= a && SeparatorMatch(t, a, b);
        if a == i {
          SeparatorMatchFound(t, a, b);
        } else {
          assert i + 1 <= a;
        }
      }
    }
  }

  /** `isSeparatorLine`: the trimmed line starts with a pipe and contains a separator segment. */
  predicate IsSeparatorLine(l: string) {
    var t := Trim(l);
    StartsWith(t, "|") && HasSepSegment(t, 0)
  }

  /** A separator segment needs a pipe followed at once by a dash or a colon,
      so spaced separators such as `| --- |` are not separator lines. */
  lemma {:induction false} SeparatorNeedsDash(t: string, i: nat)
    requires i <= |t|
    ensures HasSepSegment(t, i) ==>
              exists k :: i <= k && k + 1 < |t| && t[k] == '|' && (t[k + 1] == '-' || t[k + 1] == ':')
    decreases |t| - i
  {
    if i < |t| {
      SeparatorNeedsDash(t, i + 1);
      if SepSegmentAt(t, i) {
        var j := NextPipe(t, i + 1).value;
        var w := t[i + 1..j];
        assert IsSepCell(w);
        assert w[0] == SepBody(w)[0];
        assert t[i + 1] == w[0];
      }
    }
  }

  // ---------------------------------------------------------------- cells

  /** Each piece trimmed. */
  function TrimAll(parts: seq<string>): (r: seq<string>)
    ensures |r| == |parts|
    ensures forall k :: 0 <= k < |r| ==> r[k] == Trim(parts[k])
    decreases |parts|
  {
    if parts == [] then [] else [Trim(parts[0])] + TrimAll(parts[1..])
  }

  /** A trimmed piece is trimmed already and holds no character the piece did not. */
  lemma TrimmedPiece(p: string, c: char)
    ensures Trim(Trim(p)) == Trim(p)
    ensures c !in p ==> c !in Trim(p)
  {
    TrimIdempotent(p);
    var a, b := TrimSlice(p);
    assert forall x :: x in p[a..b] ==> x in p;
  }

  /** `line.split('|').slice(1, -1).map(c => c.trim())`: the trimmed pieces
      between the first and the last pipe; fewer than two pieces give none. */
  function Cells(line: string): (cells: seq<string>)
    ensures |cells| == if Count(line, '|') == 0 then 0 else Count(line, '|') - 1
    ensures forall k :: 0 <= k < |cells| ==> '|' !in cells[k] && Trim(cells[k]) == cells[k]
  {
    var f := Split(line, '|');
    var cells := if |f| >= 2 then TrimAll(f[1..|f| - 1]) else [];
    assert forall k :: 0 <= k < |cells| ==> '|' !in cells[k] && Trim(cells[k]) == cells[k] by {
      forall k | 0 <= k < |cells| ensures '|' !in cells[k] && Trim(cells[k]) == cells[k] {
        TrimmedPiece(f[k + 1], '|');
      }
    }
    cells
  }

  /** A row written from cells: a pipe before, between and after them. */
  function RowText(cells: seq<string>): string {
    "|" + Join(cells, '|') + "|"
  }

  lemma JoinCons(x: string, parts: seq<string>, sep: char)
    ensures Join([x] + parts, sep) == if parts == [] then x else x + [sep] + Join(parts, sep)
  {
    assert ([x] + parts)[1..] == parts;
  }

  lemma {:induction false} JoinSnoc(parts: seq<string>, x: string, sep: char)
    ensures Join(parts + [x], sep) == if parts == [] then x else Join(parts, sep) + [sep] + x
    decreases |parts|
  {
    if |parts| > 1 {
      assert (parts + [x])[1..] == parts[1..] + [x];
      JoinSnoc(parts[1..], x, sep);
    } else if |parts| == 1 {
      assert (parts + [x])[1..] == [x];
    }
  }

  /** The cells of a row written from pipe-free pieces, padded or not, are the
      trimmed pieces, in order: the inverse of `RowText` up to trimming.
      Whatever follows the last pipe is dropped, even when it is text. (With
      no pieces, `RowText` gives `||`, which has one empty cell.) */
  lemma CellsOfPaddedRow(pieces: seq<string>, tail: string)
    requires |pieces| > 0 && '|' !in tail
    requires forall k :: 0 <= k < |pieces| ==> '|' !in pieces[k]
    ensures Cells(RowText(pieces) + tail) == TrimAll(pieces)
  {
    var parts := [""] + pieces + [tail];
    RowJoin(pieces, tail);
    PipeFreeParts(pieces, tail);
    SplitJoin(parts, '|');
    assert parts[1..|parts| - 1] == pieces;
  }

  /** The pieces of a row, the empty piece before its first pipe and its tail hold no pipe. */
  lemma PipeFreeParts(pieces: seq<string>, tail: string)
    requires '|' !in tail
    requires forall k :: 0 <= k < |pieces| ==> '|' !in pieces[k]
    ensures var parts := [""] + pieces + [tail];
            forall k :: 0 <= k < |parts| ==> '|' !in parts[k]
  {
    var parts := [""] + pieces + [tail];
    forall k | 0 <= k < |parts| ensures '|' !in parts[k] {
      if 0 < k <= |pieces| {
        assert parts[k] == pieces[k - 1];
      }
    }
  }

  /** Cells of a row written from trimmed, pipe-free cells are those cells. */
  lemma CellsOfRow(cells: seq<string>, tail: string)
    requires |cells| > 0 && '|' !in tail
    requires forall k :: 0 <= k < |cells| ==> '|' !in cells[k] && Trim(cells[k]) == cells[k]
    ensures Cells(RowText(cells) + tail) == cells
  {
    CellsOfPaddedRow(cells, tail);
    assert TrimAll(cells) == cells;
  }

  /** A row followed by a pipe-free tail is the join of an empty piece, the cells and the tail. */
  lemma RowJoin(cells: seq<string>, tail: string)
    requires |cells| > 0
    ensures Join([""] + cells + [tail], '|') == RowText(cells) + tail
  {
    var j := Join(cells, '|');
    JoinSnoc(cells, tail, '|');
    assert Join(cells + [tail], '|') == j + "|" + tail;
    JoinCons("", cells + [tail], '|');
    assert [""] + (cells + [tail]) == [""] + cells + [tail];
    assert Join([""] + cells + [tail], '|') == "" + "|" + (j + "|" + tail);
    Regroup("|", j, "|", tail);
  }

  lemma Regroup(a: string, b: string, c: string, d: string)
    ensures "" + a + (b + c + d) == a + b + c + d
  {
  }
}
