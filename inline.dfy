/**
 * The inline bold formatter: a global `replace` of the regular expression
 * `\*\*(.*?)\*\*` by `<strong>$1</strong>`, which the renderer applies to
 * table data cells, list items and ordinary paragraphs. Instead of an HTML string the result is a list of segments, each
 * literal text or a bold span.
 *
 * The regular expression is read as the JavaScript engine runs it: the search
 * starts at the leftmost position; there `**` must open, the lazy `(.*?)` then
 * grows one character at a time until a `**` follows, and `.` does not match a
 * line terminator, so a terminator before any closing `**` makes the attempt
 * fail. After a match the search resumes just past the closing `**`; after a
 * failed attempt the character stays literal and the search moves on by one.
 */
module Inline {
  import opened Optional
  import opened JsText

  datatype Segment = Plain(text: string) | Bold(text: string)

  /** The characters a JavaScript regular expression's `.` does not match. */
  predicate IsLineTerminator(c: char) {
    c == '\n' || c == '\r' || c == '\U{2028}' || c == '\U{2029}'
  }

  /** A `**` marker starts at offset `k` of `s`. */
  predicate MarkerAt(s: string, k: int) {
    0 <= k && k + 2 <= |s| && s[k] == '*' && s[k + 1] == '*'
  }

  predicate NoMarker(s: string) {
    forall k :: 0 <= k < |s| ==> !MarkerAt(s, k)
  }

  predicate NoTerminatorIn(s: string, lo: int, hi: int)
    requires 0 <= lo <= hi <= |s|
  {
    forall j :: lo <= j < hi ==> !IsLineTerminator(s[j])
  }

  /** The lazy `(.*?)\*\*` tail of the pattern, tried from offset `q`: the first
      `**` at or after `q`, provided no line terminator comes before it. */
  function FindClose(s: string, q: nat): (r: Option<nat>)
    requires q <= |s|
    ensures r.Some? ==> q <= r.value && MarkerAt(s, r.value) && NoTerminatorIn(s, q, r.value)
    ensures r.Some? ==> forall k :: q <= k < r.value ==> !MarkerAt(s, k)
    ensures r.None? ==> forall k :: q <= k && MarkerAt(s, k) ==> exists j :: q <= j < k && IsLineTerminator(s[j])
    decreases |s| - q
  {
    if q + 2 > |s| then None
    else if MarkerAt(s, q) then Some(q)
    else if IsLineTerminator(s[q]) then None
    else FindClose(s, q + 1)
  }

  /** A bold span's text as the lazy match leaves it: no line terminator, and the
      closing `**` written after it is the first `**` in text-plus-closer, so the
      text neither contains `**` nor ends in a `*`. */
  predicate LazyContent(t: string) {
    (forall k :: 0 <= k < |t| ==> !MarkerAt(t + "**", k)) && NoTerminatorIn(t, 0, |t|)
  }

  /** Prepends one literal character, merging it into a leading literal segment. */
  function ConsChar(c: char, segs: seq<Segment>): seq<Segment> {
    if |segs| > 0 && segs[0].Plain? then [Plain([c] + segs[0].text)] + segs[1..]
    else [Plain([c])] + segs
  }

  /** The text of the bold span a match opened at offset 0 of `s` and closed at `q` would capture. */
  lemma LazyCapture(s: string, q: nat)
    requires 2 <= q && MarkerAt(s, q) && NoTerminatorIn(s, 2, q)
    requires forall k :: 2 <= k < q ==> !MarkerAt(s, k)
    ensures LazyContent(s[2..q])
  {
    var t := s[2..q];
    assert t + "**" == s[2..q + 2];
    forall k | 0 <= k < |t|
      ensures !MarkerAt(t + "**", k) && !IsLineTerminator(t[k])
    {
      assert (t + "**")[k] == s[k + 2] && (t + "**")[k + 1] == s[k + 3];
      assert !MarkerAt(s, k + 2);
    }
  }

  /** The bold `replace`: the segments of `s`, left to right. */
  function Format(s: string): (r: seq<Segment>)
    ensures forall k :: 0 <= k < |r| && r[k].Bold? ==> LazyContent(r[k].text)
    ensures forall k :: 0 <= k < |r| && r[k].Plain? ==> r[k].text != []
    decreases |s|
  {
    if s == [] then []
    else if MarkerAt(s, 0) && FindClose(s, 2).Some? then
      var q := FindClose(s, 2).value;
      LazyCapture(s, q);
      [Bold(s[2..q])] + Format(s[q + 2..])
    else
      ConsChar(s[0], Format(s[1..]))
  }

  /** The markdown a segment list stands for: each bold span wrapped back in `**`. */
  function Markup(segs: seq<Segment>): string
    decreases |segs|
  {
    if segs == [] then ""
    else
      (match segs[0]
       case Plain(t) => t
       case Bold(t) => "**" + t + "**")
      + Markup(segs[1..])
  }

  lemma MarkupConsChar(c: char, segs: seq<Segment>)
    ensures Markup(ConsChar(c, segs)) == [c] + Markup(segs)
  {
    if |segs| > 0 && segs[0].Plain? {
      assert ConsChar(c, segs)[1..] == segs[1..];
    } else {
      assert ConsChar(c, segs)[1..] == segs;
    }
  }

  /** Formatting loses nothing: writing each bold span back as `**text**` and
      concatenating reproduces the input exactly. */
  lemma {:induction false} FormatRoundTrip(s: string)
    ensures Markup(Format(s)) == s
    decreases |s|
  {
    if s != [] {
      if MarkerAt(s, 0) && FindClose(s, 2).Some? {
        var q := FindClose(s, 2).value;
        FormatRoundTrip(s[q + 2..]);
        RoundTripBold(s, q);
      } else {
        FormatRoundTrip(s[1..]);
        MarkupConsChar(s[0], Format(s[1..]));
        assert [s[0]] + s[1..] == s;
      }
    }
  }

  /** The round trip through a bold span, given the round trip of what follows it. */
  lemma RoundTripBold(s: string, q: nat)
    requires MarkerAt(s, 0) && FindClose(s, 2) == Some(q)
    requires Markup(Format(s[q + 2..])) == s[q + 2..]
    ensures Markup(Format(s)) == s
  {
    var t, rest := s[2..q], Format(s[q + 2..]);
    assert Format(s) == [Bold(t)] + rest;
    MarkupBoldFront(t, rest);
    BoldSpan(s, q);
  }

  /** Text with markers at 0 and `q` is those markers around what lies between, then the rest. */
  lemma BoldSpan(s: string, q: nat)
    requires MarkerAt(s, 0) && 2 <= q && MarkerAt(s, q)
    ensures s == "**" + s[2..q] + "**" + s[q + 2..]
  {
    assert s[..2] == "**" && s[q..q + 2] == "**";
    assert s == s[..2] + s[2..q] + s[q..q + 2] + s[q + 2..];
  }

  lemma MarkupBoldFront(t: string, segs: seq<Segment>)
    ensures Markup([Bold(t)] + segs) == "**" + t + "**" + Markup(segs)
  {
    assert ([Bold(t)] + segs)[1..] == segs;
  }

  /** Text containing no `**` comes back as one unchanged literal segment (none for the empty text). */
  lemma {:induction false} FormatWithoutMarkers(s: string)
    requires NoMarker(s)
    ensures Format(s) == if s == [] then [] else [Plain(s)]
    decreases |s|
  {
    if s != [] {
      assert !MarkerAt(s, 0);
      assert NoMarker(s[1..]) by {
        forall k ensures !MarkerAt(s[1..], k) {
          assert !MarkerAt(s, k + 1);
        }
      }
      FormatWithoutMarkers(s[1..]);
      assert Format(s) == ConsChar(s[0], Format(s[1..]));
      if s[1..] == [] {
        assert [s[0]] == s;
      } else {
        assert [s[0]] + s[1..] == s;
      }
    }
  }

  /** Text with no asterisk and no line terminator can be captured whole. */
  lemma AsteriskFreeLazy(t: string)
    requires '*' !in t && NoTerminatorIn(t, 0, |t|)
    ensures LazyContent(t)
  {
    forall k | 0 <= k < |t| ensures !MarkerAt(t + "**", k) {
      assert (t + "**")[k] == t[k] && t[k] in t;
    }
  }

  /** Text free of asterisks in front of what formats to nothing or to a bold
      span first stays one literal segment. */
  lemma {:induction false} FormatLiteralPrefix(p: string, rest: string)
    requires p != [] && '*' !in p
    requires Format(rest) == [] || Format(rest)[0].Bold?
    ensures Format(p + rest) == [Plain(p)] + Format(rest)
    decreases |p|
  {
    var s := p + rest;
    assert s[0] == p[0] && s[1..] == p[1..] + rest;
    assert !MarkerAt(s, 0) by { assert p[0] in p; }
    if |p| > 1 {
      assert '*' !in p[1..] by {
        forall c | c in p[1..] ensures c != '*' { assert c in p; }
      }
      FormatLiteralPrefix(p[1..], rest);
      assert [p[0]] + p[1..] == p;
    } else {
      assert [p[0]] == p;
    }
  }

  // -------------------------------------------------- the declarative reading

  /** At the front of `u` a `**` opens and a closing `**` can be reached without
      crossing a line terminator: the regular expression matches at offset 0. */
  ghost predicate CanOpen(u: string) {
    MarkerAt(u, 0) && exists q :: 2 <= q && MarkerAt(u, q) && NoTerminatorIn(u, 2, q)
  }

  lemma CanOpenSearch(u: string)
    ensures CanOpen(u) <==> MarkerAt(u, 0) && FindClose(u, 2).Some?
  {
    if MarkerAt(u, 0) && FindClose(u, 2).Some? {
      var q := FindClose(u, 2).value;
      assert MarkerAt(u, q) && NoTerminatorIn(u, 2, q);
    }
  }

  /** The segments a left-to-right, lazy, non-nested bold scan must produce:
      literal segments are non-empty, never adjacent to each other, and no
      position inside one starts a match of the pattern against the text that
      follows; bold segments hold lazily captured text. */
  ghost predicate Canonical(segs: seq<Segment>)
    decreases |segs|
  {
    segs == [] ||
    ((match segs[0]
      case Bold(t) => LazyContent(t)
      case Plain(t) =>
        t != [] && (|segs| > 1 ==> segs[1].Bold?) &&
        forall k :: 0 <= k < |t| ==> !CanOpen(t[k..] + Markup(segs[1..])))
     && Canonical(segs[1..]))
  }

  /** The formatter's output is canonical. */
  lemma {:induction false} FormatCanonical(s: string)
    ensures Canonical(Format(s))
    decreases |s|
  {
    if s != [] {
      if MarkerAt(s, 0) && FindClose(s, 2).Some? {
        var q := FindClose(s, 2).value;
        FormatCanonical(s[q + 2..]);
        assert ([Bold(s[2..q])] + Format(s[q + 2..]))[1..] == Format(s[q + 2..]);
      } else {
        FormatCanonical(s[1..]);
        FormatRoundTrip(s[1..]);
        CanOpenSearch(s);
        var rest := Format(s[1..]);
        assert [s[0]] + Markup(rest) == s;
        if |rest| > 0 && rest[0].Plain? {
          CanonicalGrowPlain(s[0], rest);
        } else {
          CanonicalNewPlain(s[0], rest);
        }
      }
    }
  }

  /** A literal character in front of a canonical list that starts with a literal segment. */
  lemma CanonicalGrowPlain(c: char, rest: seq<Segment>)
    requires |rest| > 0 && rest[0].Plain? && Canonical(rest)
    requires !CanOpen([c] + Markup(rest))
    ensures Canonical(ConsChar(c, rest))
  {
    var r := ConsChar(c, rest);
    var t := [c] + rest[0].text;
    assert r[1..] == rest[1..];
    assert Markup(rest) == rest[0].text + Markup(rest[1..]);
    forall k | 0 <= k < |t|
      ensures !CanOpen(t[k..] + Markup(r[1..]))
    {
      if k == 0 {
        ConsRegroup(c, rest[0].text, Markup(rest[1..]));
      } else {
        assert t[k..] == rest[0].text[k - 1..];
      }
    }
  }

  lemma ConsRegroup(c: char, u: string, tail: string)
    ensures ([c] + u)[0..] + tail == [c] + (u + tail)
  {
  }

  /** A literal character in front of a canonical list that does not start with a literal segment. */
  lemma CanonicalNewPlain(c: char, rest: seq<Segment>)
    requires !(|rest| > 0 && rest[0].Plain?) && Canonical(rest)
    requires !CanOpen([c] + Markup(rest))
    ensures Canonical(ConsChar(c, rest))
  {
    var r := ConsChar(c, rest);
    assert r[1..] == rest;
    forall k | 0 <= k < 1
      ensures !CanOpen([c][k..] + Markup(r[1..]))
    {
      assert [c][k..] == [c];
    }
  }

  /** A closing search that reaches offset `q` without meeting a marker or a
      terminator finds the marker at `q`. */
  lemma {:induction false} FindCloseAt(s: string, from: nat, q: nat)
    requires from <= q && MarkerAt(s, q) && NoTerminatorIn(s, from, q)
    requires forall k :: from <= k < q ==> !MarkerAt(s, k)
    ensures FindClose(s, from) == Some(q)
    decreases q - from
  {
    if from < q {
      FindCloseAt(s, from + 1, q);
    }
  }

  /** The converse of the round trip: a canonical segment list is exactly what
      the formatter makes of its markup, so the formatter's output is the one
      canonical segmentation of its input. */
  lemma {:induction false} FormatOfCanonical(segs: seq<Segment>)
    requires Canonical(segs)
    ensures Format(Markup(segs)) == segs
    decreases |Markup(segs)|, 2
  {
    if segs != [] {
      if segs[0].Bold? {
        FormatOfCanonicalBold(segs);
      } else {
        FormatOfCanonicalPlain(segs);
      }
    }
  }

  lemma {:induction false} FormatOfCanonicalBold(segs: seq<Segment>)
    requires Canonical(segs) && segs != [] && segs[0].Bold?
    ensures Format(Markup(segs)) == segs
    decreases |Markup(segs)|, 1
  {
    var t, rest := segs[0].text, Markup(segs[1..]);
    assert Markup(segs) == "**" + t + "**" + rest;
    FormatBoldFront(t, rest);
    FormatOfCanonical(segs[1..]);
    assert [segs[0]] + segs[1..] == segs;
  }

  /** Lazily captured text between two markers is read back as one bold segment. */
  lemma FormatBoldFront(t: string, rest: string)
    requires LazyContent(t)
    ensures Format("**" + t + "**" + rest) == [Bold(t)] + Format(rest)
  {
    var s := "**" + t + "**" + rest;
    var q := |t| + 2;
    forall k | 2 <= k < q
      ensures !MarkerAt(s, k) && !IsLineTerminator(s[k])
    {
      assert (t + "**")[k - 2] == s[k] && (t + "**")[k - 1] == s[k + 1];
      assert !MarkerAt(t + "**", k - 2);
    }
    FindCloseAt(s, 2, q);
    assert s[2..q] == t && s[q + 2..] == rest;
  }

  /** Dropping the first character of a leading literal segment keeps a list canonical. */
  lemma CanonicalDropChar(t: string, more: seq<Segment>)
    requires |t| > 1 && Canonical([Plain(t)] + more)
    ensures Canonical([Plain(t[1..])] + more)
  {
    var segs, segs' := [Plain(t)] + more, [Plain(t[1..])] + more;
    assert segs[1..] == more && segs'[1..] == more;
    forall k | 0 <= k < |t[1..]|
      ensures !CanOpen(t[1..][k..] + Markup(more))
    {
      assert t[1..][k..] == t[k + 1..];
    }
  }

  /** Where no match opens, the formatter keeps the first character literal. */
  lemma FormatLiteralStep(s: string)
    requires s != [] && !CanOpen(s)
    ensures Format(s) == ConsChar(s[0], Format(s[1..]))
  {
    CanOpenSearch(s);
  }

  lemma CanonicalPlainHead(t: string, more: seq<Segment>)
    requires Canonical([Plain(t)] + more)
    ensures t != [] && !CanOpen(t + Markup(more)) && Canonical(more)
    ensures more != [] ==> more[0].Bold?
  {
    assert ([Plain(t)] + more)[1..] == more;
    assert t[0..] == t;
  }

  lemma {:induction false} FormatOfCanonicalPlain(segs: seq<Segment>)
    requires Canonical(segs) && segs != [] && segs[0].Plain?
    ensures Format(Markup(segs)) == segs
    decreases |Markup(segs)|, 1
  {
    var t, more := segs[0].text, segs[1..];
    assert segs == [Plain(t)] + more;
    CanonicalPlainHead(t, more);
    assert Markup(segs) == t + Markup(more);
    if |t| == 1 {
      var s := t + Markup(more);
      FormatLiteralStep(s);
      assert s[1..] == Markup(more);
      FormatOfCanonical(more);
      assert [s[0]] == t;
    } else {
      CanonicalDropChar(t, more);
      FormatOfCanonicalLiteral(t, more);
    }
  }

  /** A literal segment of two or more characters: the first stays literal and
      is merged into the segment the rest of it makes. */
  lemma {:induction false} FormatOfCanonicalLiteral(t: string, more: seq<Segment>)
    requires |t| > 1 && !CanOpen(t + Markup(more))
    requires Canonical([Plain(t[1..])] + more)
    ensures Format(t + Markup(more)) == [Plain(t)] + more
    decreases |t + Markup(more)|, 0
  {
    var s := t + Markup(more);
    var segs' := [Plain(t[1..])] + more;
    FormatLiteralStep(s);
    assert Markup(segs') == t[1..] + Markup(more) by {
      assert segs'[1..] == more;
    }
    assert s[1..] == t[1..] + Markup(more);
    FormatOfCanonical(segs');
    assert [s[0]] + t[1..] == t;
  }

  // ------------------------------------------------------ the stripped output

  /** The text of a segment list with the bold markers removed: every
      segment's text, in order. */
  function Stripped(segs: seq<Segment>): (r: string)
    ensures |r| + 4 * BoldCount(segs) == |Markup(segs)|
    decreases |segs|
  {
    if segs == [] then "" else segs[0].text + Stripped(segs[1..])
  }

  function BoldCount(segs: seq<Segment>): nat
    decreases |segs|
  {
    if segs == [] then 0 else (if segs[0].Bold? then 1 else 0) + BoldCount(segs[1..])
  }

  /** No position of `u` starts a match of the pattern. */
  ghost predicate NoMatch(u: string) {
    forall k :: 0 <= k < |u| ==> !CanOpen(u[k..])
  }

  /** A `**` can be reached from the front of `x` without crossing a line terminator. */
  ghost predicate MarkerReachable(x: string) {
    exists m :: MarkerAt(x, m) && NoTerminatorIn(x, 0, m)
  }

  lemma StrippedConsChar(c: char, segs: seq<Segment>)
    ensures Stripped(ConsChar(c, segs)) == [c] + Stripped(segs)
  {
    if |segs| > 0 && segs[0].Plain? {
      assert ConsChar(c, segs)[1..] == segs[1..];
    } else {
      assert ConsChar(c, segs)[1..] == segs;
    }
  }

  lemma StrippedBoldFront(t: string, segs: seq<Segment>)
    ensures Stripped([Bold(t)] + segs) == t + Stripped(segs)
  {
    assert ([Bold(t)] + segs)[1..] == segs;
  }

  /** Text in which no match opens anywhere comes back as one literal segment
      (none for the empty text). */
  lemma {:induction false} FormatWithoutMatch(u: string)
    requires NoMatch(u)
    ensures Format(u) == if u == [] then [] else [Plain(u)]
    decreases |u|
  {
    if u != [] {
      assert u[0..] == u;
      FormatLiteralStep(u);
      assert NoMatch(u[1..]) by {
        forall k | 0 <= k < |u[1..]| ensures !CanOpen(u[1..][k..]) {
          assert u[1..][k..] == u[k + 1..];
        }
      }
      FormatWithoutMatch(u[1..]);
      if u[1..] == [] { assert [u[0]] == u; } else { assert [u[0]] + u[1..] == u; }
    }
  }

  /** Stripping never brings a `**` closer: one reachable in the stripped
      output of `y` was reachable in `y`. */
  lemma {:induction false} ReachableBeforeStrip(y: string)
    requires MarkerReachable(Stripped(Format(y)))
    ensures MarkerReachable(y)
    decreases |y|
  {
    if y == [] {
    } else if MarkerAt(y, 0) && FindClose(y, 2).Some? {
      assert NoTerminatorIn(y, 0, 0);
    } else {
      var z := Stripped(Format(y[1..]));
      StrippedConsChar(y[0], Format(y[1..]));
      var x := [y[0]] + z;
      var m :| MarkerAt(x, m) && NoTerminatorIn(x, 0, m);
      if m == 0 {
        assert y[0] == '*' by { assert x[0] == y[0]; }
        if !MarkerAt(y[1..], 0) || FindClose(y[1..], 2).None? {
          assert y[1..][1..] == y[2..];
          StrippedConsChar(y[1], Format(y[2..]));
          assert y[1] == z[0];
        }
        assert MarkerAt(y, 0) && NoTerminatorIn(y, 0, 0);
      } else {
        ReachableTail(x, m);
        assert x[0] == y[0] && x[1..] == z;
        ReachableBeforeStrip(y[1..]);
        ReachableCons(y);
      }
    }
  }

  /** A `**` reached past the first character is reached from the second one. */
  lemma ReachableTail(x: string, m: nat)
    requires 0 < m && MarkerAt(x, m) && NoTerminatorIn(x, 0, m)
    ensures !IsLineTerminator(x[0]) && MarkerReachable(x[1..])
  {
    var t := x[1..];
    assert MarkerAt(t, m - 1) by { assert t[m - 1] == x[m] && t[m] == x[m + 1]; }
    forall j | 0 <= j < m - 1 ensures !IsLineTerminator(t[j]) {
      assert t[j] == x[j + 1];
    }
    assert NoTerminatorIn(t, 0, m - 1);
  }

  /** A character other than a line terminator in front keeps a `**` reachable. */
  lemma ReachableCons(y: string)
    requires y != [] && !IsLineTerminator(y[0]) && MarkerReachable(y[1..])
    ensures MarkerReachable(y)
  {
    var t := y[1..];
    var n :| MarkerAt(t, n) && NoTerminatorIn(t, 0, n);
    assert MarkerAt(y, n + 1) by { assert y[n + 1] == t[n] && y[n + 2] == t[n + 1]; }
    forall j | 0 <= j < n + 1 ensures !IsLineTerminator(y[j]) {
      if j > 0 { assert y[j] == t[j - 1]; }
    }
    assert NoTerminatorIn(y, 0, n + 1);
  }

  /** A match that opens at the front of `x` reaches a `**` from `x[2..]`. */
  lemma ReachableAfterOpen(x: string)
    requires CanOpen(x)
    ensures MarkerReachable(x[2..])
  {
    var q :| 2 <= q && MarkerAt(x, q) && NoTerminatorIn(x, 2, q);
    var t := x[2..];
    assert MarkerAt(t, q - 2) by { assert t[q - 2] == x[q] && t[q - 1] == x[q + 1]; }
    forall j | 0 <= j < q - 2 ensures !IsLineTerminator(t[j]) {
      assert t[j] == x[j + 2];
    }
    assert NoTerminatorIn(t, 0, q - 2);
  }

  /** A `**` at the front with another reachable after it opens a match. */
  lemma OpenFromReachable(s: string)
    requires MarkerAt(s, 0) && MarkerReachable(s[2..])
    ensures CanOpen(s)
  {
    var t := s[2..];
    var n :| MarkerAt(t, n) && NoTerminatorIn(t, 0, n);
    assert MarkerAt(s, n + 2) by { assert s[n + 2] == t[n] && s[n + 3] == t[n + 1]; }
    forall j | 2 <= j < n + 2 ensures !IsLineTerminator(s[j]) {
      assert s[j] == t[j - 2];
    }
    assert NoTerminatorIn(s, 2, n + 2);
  }

  /** A `*` in front of a match opens a match itself. */
  lemma OpenBehindStar(s: string)
    requires s != [] && s[0] == '*' && MarkerAt(s[1..], 0) && FindClose(s[1..], 2).Some?
    ensures CanOpen(s)
  {
    var t := s[1..];
    var q := FindClose(t, 2).value;
    assert MarkerAt(s, q + 1) by { assert s[q + 1] == t[q] && s[q + 2] == t[q + 1]; }
    forall j | 2 <= j < q + 1 ensures !IsLineTerminator(s[j]) {
      assert s[j] == t[j - 1];
    }
    assert MarkerAt(s, 0) && NoTerminatorIn(s, 2, q + 1);
  }

  /** A match that opens at the first character of the stripped output already
      opened at the first character of the input. */
  lemma OpenBeforeStrip(s: string)
    requires s != []
    ensures CanOpen([s[0]] + Stripped(Format(s[1..]))) ==> CanOpen(s)
  {
    var z := Stripped(Format(s[1..]));
    var x := [s[0]] + z;
    if CanOpen(x) {
      assert s[0] == '*' && x[1] == z[0] == '*';
      var t := s[1..];
      if MarkerAt(t, 0) && FindClose(t, 2).Some? {
        OpenBehindStar(s);
      } else {
        assert t[1..] == s[2..];
        StrippedConsChar(t[0], Format(s[2..]));
        var w := Stripped(Format(s[2..]));
        assert z == [s[1]] + w && x[2..] == w;
        ReachableAfterOpen(x);
        ReachableBeforeStrip(s[2..]);
        OpenFromReachable(s);
      }
    }
  }

  /** Lazily captured text in front of text where no match opens: still none opens. */
  lemma LazyNoMatch(t: string, x: string)
    requires LazyContent(t) && NoMatch(x)
    ensures NoMatch(t + x)
  {
    var u := t + x;
    forall k | 0 <= k < |u| ensures !CanOpen(u[k..]) {
      if k < |t| {
        assert !MarkerAt(t + "**", k);
        assert u[k] == (t + "**")[k];
        if k + 1 < |t| {
          assert u[k + 1] == (t + "**")[k + 1];
        }
        assert !MarkerAt(u[k..], 0);
      } else {
        assert u[k..] == x[k - |t|..];
      }
    }
  }

  /** No match opens anywhere in the formatter's output with the markers stripped. */
  lemma {:induction false} StrippedHasNoMatch(s: string)
    ensures NoMatch(Stripped(Format(s)))
    decreases |s|
  {
    if s == [] {
    } else if MarkerAt(s, 0) && FindClose(s, 2).Some? {
      var q := FindClose(s, 2).value;
      var t, r := s[2..q], s[q + 2..];
      LazyCapture(s, q);
      assert Format(s) == [Bold(t)] + Format(r);
      StrippedBoldFront(t, Format(r));
      StrippedHasNoMatch(r);
      LazyNoMatch(t, Stripped(Format(r)));
    } else {
      var z := Stripped(Format(s[1..]));
      StrippedConsChar(s[0], Format(s[1..]));
      StrippedHasNoMatch(s[1..]);
      CanOpenSearch(s);
      OpenBeforeStrip(s);
      var x := [s[0]] + z;
      forall k | 0 <= k < |x| ensures !CanOpen(x[k..]) {
        if k == 0 {
          assert x[0..] == x;
        } else {
          assert x[k..] == z[k - 1..];
        }
      }
    }
  }

  /** Formatting the stripped output again finds no bold span: the text comes
      back as one unchanged literal segment, or as nothing when it is empty. */
  lemma StrippedIdempotent(s: string)
    ensures var u := Stripped(Format(s));
            Format(u) == (if u == [] then [] else [Plain(u)]) && Stripped(Format(u)) == u
  {
    var u := Stripped(Format(s));
    StrippedHasNoMatch(s);
    FormatWithoutMatch(u);
    if u != [] {
      assert Stripped([Plain(u)]) == u + Stripped([]);
    }
  }
}
