/**
 The comments in front of a source file's first statement, and replacing some of them in
 place without disturbing the rest of the text.
 */
module LeadingComments {
  import opened Options
  import opened Text

  datatype Style = Block | Line | DocLine | InnerLine

  datatype Span = Span(begin: nat, end: nat, style: Style)

  datatype Scan = Found(spans: seq<Span>) | Unterminated | Nested

  predicate StartsAt(text: string, part: string, i: nat) {
    i <= |text| && part <= text[i..]
  }

  /** The first occurrence from a position on; the length of the text when there is none. */
  function Find(text: string, part: string, from: nat): (k: nat)
    requires from <= |text| && part != ""
    ensures from <= k <= |text| && (k < |text| ==> StartsAt(text, part, k))
    ensures forall i | from <= i < k :: !StartsAt(text, part, i)
    decreases |text| - from
  {
    if from == |text| || StartsAt(text, part, from) then from else Find(text, part, from + 1)
  }

  /** The first position from `i` on that is not white space. */
  function SkipSpace(text: string, i: nat): nat
    requires i <= |text|
  {
    SkipWhile(text, i, IsSpace)
  }

  function LineStyle(text: string, i: nat, marker: string): Style {
    if marker == "//" && StartsAt(text, "//!", i) then InnerLine
    else if marker == "//" && StartsAt(text, "///", i) && !StartsAt(text, "////", i) then DocLine
    else Line
  }

  predicate Marker(m: string) {
    m == "#" || m == "--" || m == "//"
  }

  predicate OpensBlock(text: string, marker: string, i: nat) {
    marker != "#" && StartsAt(text, "/*", i)
  }

  predicate OpensComment(text: string, marker: string, i: nat) {
    OpensBlock(text, marker, i) || StartsAt(text, marker, i)
  }

  // ----- What a comment is -----

  /** A block comment from its opening to the first closing after it, with no opening inside. */
  ghost predicate IsBlock(text: string, marker: string, s: Span) {
    && s.style == Block && OpensBlock(text, marker, s.begin)
    && s.begin + 4 <= s.end <= |text| && StartsAt(text, "*/", s.end - 2)
    && (forall i | s.begin + 2 <= i < s.end - 2 :: !StartsAt(text, "*/", i))
    && (forall i | s.begin + 2 <= i < s.end - 3 :: !StartsAt(text, "/*", i))
  }

  /** The line that starts at `i` is a comment line of the style. */
  predicate CommentLine(text: string, marker: string, style: Style, i: nat) {
    StartsAt(text, marker, i) && LineStyle(text, i, marker) == style
  }

  /** Where the line that starts at `i` ends, its line feed included. */
  function LineEnd(text: string, i: nat): (e: nat)
    requires i <= |text|
    ensures i <= e <= |text| && (i < |text| ==> i < e)
  {
    var k := Find(text, "\n", i);
    if k == |text| then k else k + 1
  }

  /** Consecutive comment lines of one style, as many as there are. */
  ghost predicate LineRun(text: string, marker: string, style: Style, begin: nat, end: nat)
    decreases |text| - begin
  {
    && begin <= end <= |text|
    && if CommentLine(text, marker, style, begin) && begin < |text|
       then LineEnd(text, begin) <= end && LineRun(text, marker, style, LineEnd(text, begin), end)
       else begin == end
  }

  ghost predicate IsLineComment(text: string, marker: string, s: Span) {
    && s.style != Block && !OpensBlock(text, marker, s.begin)
    && s.begin < s.end && CommentLine(text, marker, s.style, s.begin)
    && LineRun(text, marker, s.style, s.begin, s.end)
  }

  ghost predicate IsComment(text: string, marker: string, s: Span) {
    IsBlock(text, marker, s) || IsLineComment(text, marker, s)
  }

  /** The comments follow each other from `start`, with nothing but white space between them. */
  ghost predicate Leading(text: string, marker: string, start: nat, spans: seq<Span>)
    requires start <= |text|
    decreases |spans|
  {
    spans != [] ==>
      && spans[0].begin == SkipSpace(text, start)
      && IsComment(text, marker, spans[0]) && spans[0].begin < spans[0].end <= |text|
      && Leading(text, marker, spans[0].end, spans[1..])
  }

  function EndOf(start: nat, spans: seq<Span>): nat {
    if spans == [] then start else spans[|spans| - 1].end
  }

  ghost predicate LeadingTo(text: string, marker: string, start: nat, spans: seq<Span>) {
    start <= |text| && Leading(text, marker, start, spans) && EndOf(start, spans) <= |text|
  }

  ghost predicate OpenBlock(text: string, marker: string, b: nat) {
    OpensBlock(text, marker, b) && forall i | b + 2 <= i < |text| :: !StartsAt(text, "*/", i)
  }

  ghost predicate NestedBlock(text: string, marker: string, b: nat) {
    OpensBlock(text, marker, b) &&
    exists i, e | b + 2 <= i && i + 2 <= e < |text| ::
      StartsAt(text, "/*", i) && StartsAt(text, "*/", e) && forall k | b + 2 <= k < e :: !StartsAt(text, "*/", k)
  }

  lemma {:induction false} LeadingSnoc(text: string, marker: string, start: nat, spans: seq<Span>, s: Span)
    requires start <= |text| && Leading(text, marker, start, spans) && EndOf(start, spans) <= |text|
    requires s.begin == SkipSpace(text, EndOf(start, spans))
    requires IsComment(text, marker, s) && s.begin < s.end <= |text|
    ensures Leading(text, marker, start, spans + [s])
    decreases |spans|
  {
    if spans != [] {
      LeadingSnoc(text, marker, spans[0].end, spans[1..], s);
      assert (spans + [s])[1..] == spans[1..] + [s];
    }
  }

  lemma {:induction false} LineRunUnique(text: string, marker: string, style: Style, begin: nat, a: nat, b: nat)
    requires LineRun(text, marker, style, begin, a) && LineRun(text, marker, style, begin, b)
    ensures a == b
    decreases |text| - begin
  {
    if CommentLine(text, marker, style, begin) && begin < |text| {
      LineRunUnique(text, marker, style, LineEnd(text, begin), a, b);
    }
  }

  lemma CommentUnique(text: string, marker: string, a: Span, b: Span)
    requires IsComment(text, marker, a) && IsComment(text, marker, b) && a.begin == b.begin
    ensures a == b
  {
    if a.style == Block {
      assert StartsAt(text, "*/", a.end - 2) && StartsAt(text, "*/", b.end - 2);
    } else {
      LineRunUnique(text, marker, a.style, a.begin, a.end, b.end);
    }
  }

  lemma LeadingOpens(text: string, marker: string, start: nat, spans: seq<Span>)
    requires LeadingTo(text, marker, start, spans) && spans != []
    ensures OpensComment(text, marker, SkipSpace(text, start))
  {
  }

  /** A block that cannot be read: never closed, or with another opening inside. */
  ghost predicate Breaks(text: string, marker: string, b: nat) {
    OpenBlock(text, marker, b) || NestedBlock(text, marker, b)
  }

  /** Some comments are followed by such a block. */
  ghost predicate Broken(text: string, marker: string, start: nat) {
    exists spans | LeadingTo(text, marker, start, spans) :: Breaks(text, marker, SkipSpace(text, EndOf(start, spans)))
  }

  lemma CommentDoesNotBreak(text: string, marker: string, s: Span)
    requires IsComment(text, marker, s)
    ensures !Breaks(text, marker, s.begin)
  {
    if IsBlock(text, marker, s) {
      assert StartsAt(text, "*/", s.end - 2);
    }
  }

  /** Where a scan reached a statement, no list of comments is followed by a block that breaks. */
  lemma {:induction false} FoundDoesNotBreak(text: string, marker: string, start: nat, a: seq<Span>, b: seq<Span>)
    requires LeadingTo(text, marker, start, a) && LeadingTo(text, marker, start, b) && Marker(marker)
    requires !OpensComment(text, marker, SkipSpace(text, EndOf(start, a)))
    ensures !Breaks(text, marker, SkipSpace(text, EndOf(start, b)))
    decreases |a|
  {
    if b == [] {
      if a != [] {
        CommentDoesNotBreak(text, marker, a[0]);
      }
    } else {
      LeadingOpens(text, marker, start, b);
      CommentUnique(text, marker, a[0], b[0]);
      FoundDoesNotBreak(text, marker, a[0].end, a[1..], b[1..]);
    }
  }

  lemma FoundIsNotBroken(text: string, marker: string, start: nat, a: seq<Span>)
    requires LeadingTo(text, marker, start, a) && Marker(marker)
    requires !OpensComment(text, marker, SkipSpace(text, EndOf(start, a)))
    ensures !Broken(text, marker, start)
  {
    forall b | LeadingTo(text, marker, start, b)
      ensures !Breaks(text, marker, SkipSpace(text, EndOf(start, b)))
    {
      FoundDoesNotBreak(text, marker, start, a, b);
    }
  }

  /** Scans a run of comment lines of one style. */
  method RunOfLines(text: string, marker: string, begin: nat) returns (end: nat)
    requires Marker(marker) && begin < |text| && StartsAt(text, marker, begin) && !OpensBlock(text, marker, begin)
    ensures begin < end <= |text|
    ensures IsLineComment(text, marker, Span(begin, end, LineStyle(text, begin, marker)))
  {
    var style := LineStyle(text, begin, marker);
    end := begin;
    while end < |text| && CommentLine(text, marker, style, end)
      invariant begin <= end <= |text|
      invariant forall e | end <= e <= |text| && LineRun(text, marker, style, end, e) :: LineRun(text, marker, style, begin, e)
      invariant end == begin ==> CommentLine(text, marker, style, end)
      decreases |text| - end
    {
      end := LineEnd(text, end);
    }
  }

  /** Scans the comment at a position, if one starts there. */
  method NextComment(text: string, marker: string, begin: nat) returns (r: Scan)
    requires Marker(marker) && begin <= |text|
    ensures r.Found? ==> r.spans == [] || (|r.spans| == 1 && r.spans[0].begin == begin)
    ensures r.Found? && r.spans == [] ==> !OpensComment(text, marker, begin)
    ensures r.Found? && r.spans != [] ==>
              IsComment(text, marker, r.spans[0]) && begin < r.spans[0].end <= |text|
    ensures r.Unterminated? ==> OpenBlock(text, marker, begin)
    ensures r.Nested? ==> NestedBlock(text, marker, begin)
  {
    if OpensBlock(text, marker, begin) {
      var close := Find(text, "*/", begin + 2);
      if close == |text| {
        return Unterminated;
      }
      if Find(text, "/*", begin + 2) + 2 <= close {
        return Nested;
      }
      r := Found([Span(begin, close + 2, Block)]);
    } else if StartsAt(text, marker, begin) {
      var end := RunOfLines(text, marker, begin);
      r := Found([Span(begin, end, LineStyle(text, begin, marker))]);
    } else {
      r := Found([]);
    }
  }

  method ScanComments(text: string, marker: string, start: nat) returns (r: Scan)
    requires Marker(marker) && start <= |text|
    ensures r.Found? ==>
              && Leading(text, marker, start, r.spans)
              && EndOf(start, r.spans) <= |text|
              && !OpensComment(text, marker, SkipSpace(text, EndOf(start, r.spans)))
    ensures r.Unterminated? ==>
              exists spans | LeadingTo(text, marker, start, spans) ::
                OpenBlock(text, marker, SkipSpace(text, EndOf(start, spans)))
    ensures r.Nested? ==>
              exists spans | LeadingTo(text, marker, start, spans) ::
                NestedBlock(text, marker, SkipSpace(text, EndOf(start, spans)))
    ensures r.Found? <==> !Broken(text, marker, start)
  {
    var spans: seq<Span> := [];
    var position := start;
    while position < |text|
      invariant start <= position <= |text| && position == EndOf(start, spans)
      invariant LeadingTo(text, marker, start, spans)
      decreases |text| - position
    {
      var next := NextComment(text, marker, SkipSpace(text, position));
      if !next.Found? {
        return next;
      }
      if next.spans == [] {
        break;
      }
      LeadingSnoc(text, marker, start, spans, next.spans[0]);
      spans := spans + [next.spans[0]];
      position := next.spans[0].end;
    }
    FoundIsNotBroken(text, marker, start, spans);
    r := Found(spans);
  }

  // ----- The scan's result is the only one -----

  /** Two scans that both stop at a statement found the same comments. */
  lemma {:induction false} LeadingUnique(text: string, marker: string, start: nat, a: seq<Span>, b: seq<Span>)
    requires LeadingTo(text, marker, start, a) && LeadingTo(text, marker, start, b) && Marker(marker)
    requires !OpensComment(text, marker, SkipSpace(text, EndOf(start, a)))
    requires !OpensComment(text, marker, SkipSpace(text, EndOf(start, b)))
    ensures a == b
    decreases |a|
  {
    if a == [] || b == [] {
      if a != [] {
        LeadingOpens(text, marker, start, a);
        assert false;
      }
      if b != [] {
        LeadingOpens(text, marker, start, b);
        assert false;
      }
    } else {
      CommentUnique(text, marker, a[0], b[0]);
      LeadingUnique(text, marker, a[0].end, a[1..], b[1..]);
      assert a == [a[0]] + a[1..] && b == [b[0]] + b[1..];
    }
  }

  lemma FirstApart(text: string, marker: string, start: nat, spans: seq<Span>)
    requires LeadingTo(text, marker, start, spans) && spans != []
    ensures start <= spans[0].begin < spans[0].end <= |text|
    ensures forall m | start <= m < spans[0].begin :: IsSpace(text[m])
    ensures LeadingTo(text, marker, spans[0].end, spans[1..])
  {
  }

  /** Every comment begins where the list does or later, and is not empty. */
  lemma {:induction false} SpanBounds(text: string, marker: string, start: nat, spans: seq<Span>, i: nat)
    requires LeadingTo(text, marker, start, spans) && i < |spans|
    ensures start <= spans[i].begin < spans[i].end <= |text|
    decreases |spans|
  {
    FirstApart(text, marker, start, spans);
    if i > 0 {
      SpanBounds(text, marker, spans[0].end, spans[1..], i - 1);
    }
  }

  lemma {:induction false} SpanOrder(text: string, marker: string, start: nat, spans: seq<Span>, i: nat, k: nat)
    requires LeadingTo(text, marker, start, spans) && i < k < |spans|
    ensures spans[i].end <= spans[k].begin
    decreases |spans|
  {
    FirstApart(text, marker, start, spans);
    if i == 0 {
      SpanBounds(text, marker, spans[0].end, spans[1..], k - 1);
    } else {
      SpanOrder(text, marker, spans[0].end, spans[1..], i - 1, k - 1);
    }
  }

  lemma {:induction false} SpanGap(text: string, marker: string, start: nat, spans: seq<Span>, i: nat)
    requires LeadingTo(text, marker, start, spans) && i < |spans|
    ensures var before := if i == 0 then start else spans[i - 1].end;
            before <= spans[i].begin <= |text| && forall m | before <= m < spans[i].begin :: IsSpace(text[m])
    decreases |spans|
  {
    FirstApart(text, marker, start, spans);
    if i > 0 {
      SpanGap(text, marker, spans[0].end, spans[1..], i - 1);
    }
  }

  /** Comments are non-empty and in order, and only white space separates neighbours. */
  lemma SpansApart(text: string, marker: string, start: nat, spans: seq<Span>, i: nat)
    requires LeadingTo(text, marker, start, spans) && i < |spans|
    ensures start <= spans[i].begin < spans[i].end <= |text|
    ensures forall k | i < k < |spans| :: spans[i].end <= spans[k].begin
    ensures var before := if i == 0 then start else spans[i - 1].end;
            before <= spans[i].begin && forall m | before <= m < spans[i].begin :: IsSpace(text[m])
  {
    SpanBounds(text, marker, start, spans, i);
    SpanGap(text, marker, start, spans, i);
    forall k | i < k < |spans| ensures spans[i].end <= spans[k].begin {
      SpanOrder(text, marker, start, spans, i, k);
    }
  }

  // ----- Splicing -----

  datatype Edit = Edit(begin: nat, end: nat, text: string)

  /** Edits in order, apart from each other, and inside the text. */
  ghost predicate InOrder(edits: seq<Edit>, from: nat, length: nat)
    decreases |edits|
  {
    if edits == [] then from <= length
    else from <= edits[0].begin <= edits[0].end && InOrder(edits[1..], edits[0].end, length)
  }

  /** All edits at once: the text between them, and their replacements. */
  function Edited(text: string, from: nat, edits: seq<Edit>): string
    requires InOrder(edits, from, |text|)
    decreases |edits|
  {
    if edits == [] then text[from..]
    else
      InOrderBound(edits[1..], edits[0].end, |text|);
      text[from..edits[0].begin] + edits[0].text + Edited(text, edits[0].end, edits[1..])
  }

  lemma {:induction false} InOrderBound(edits: seq<Edit>, from: nat, length: nat)
    requires InOrder(edits, from, length)
    ensures from <= length
    decreases |edits|
  {
    if edits != [] {
      InOrderBound(edits[1..], edits[0].end, length);
    }
  }

  lemma {:induction false} InOrderSplit(edits: seq<Edit>, from: nat, length: nat, k: nat)
    requires InOrder(edits, from, length) && k < |edits|
    ensures from <= edits[k].begin <= edits[k].end <= length
    ensures InOrder(edits[k + 1..], edits[k].end, length) && InOrder(edits[k..], edits[k].begin, length)
    decreases |edits|
  {
    if k == 0 {
      InOrderBound(edits[1..], edits[0].end, length);
    } else {
      InOrderSplit(edits[1..], edits[0].end, length, k - 1);
      assert edits[1..][k..] == edits[k + 1..] && edits[1..][k - 1..] == edits[k..];
    }
  }

  /** Where the edits from the `k`-th on begin. */
  function Bound(edits: seq<Edit>, k: nat, length: nat): nat
    requires k <= |edits|
  {
    if k == |edits| then length else edits[k].begin
  }

  lemma EditedGap(text: string, from: nat, edits: seq<Edit>)
    requires InOrder(edits, from, |text|)
    ensures var p := Bound(edits, 0, |text|);
            && from <= p <= |text| && InOrder(edits, p, |text|)
            && Edited(text, from, edits) == text[from..p] + Edited(text, p, edits)
  {
    if edits != [] {
      InOrderBound(edits[1..], edits[0].end, |text|);
    }
  }

  lemma CutJoined(text: string, p: nat, tail: string, q: nat)
    requires q <= p <= |text|
    ensures (text[..p] + tail)[..q] == text[..q] && (text[..p] + tail)[q..] == text[q..p] + tail
  {
  }

  lemma EditedFirst(text: string, e: Edit, rest: seq<Edit>)
    requires e.begin <= e.end <= |text| && InOrder(rest, e.end, |text|)
    ensures InOrder([e] + rest, e.begin, |text|)
    ensures Edited(text, e.begin, [e] + rest) == e.text + Edited(text, e.end, rest)
  {
    var all, gap := [e] + rest, text[e.begin..e.begin];
    assert all[0] == e && all[1..] == rest && gap == "";
    assert gap + e.text == e.text;
    assert Edited(text, e.begin, all) == gap + e.text + Edited(text, e.end, rest);
  }

  /** One replacement, when everything to its right is done. */
  lemma SpliceStep(text: string, e: Edit, rest: seq<Edit>, out: string)
    requires e.begin <= e.end && InOrder(rest, e.end, |text|)
    requires var p := Bound(rest, 0, |text|);
             p <= |text| && InOrder(rest, p, |text|) && out == text[..p] + Edited(text, p, rest)
    ensures e.end <= |out| && e.begin <= |text| && InOrder([e] + rest, e.begin, |text|)
    ensures out[..e.begin] + e.text + out[e.end..] == text[..e.begin] + Edited(text, e.begin, [e] + rest)
  {
    var p := Bound(rest, 0, |text|);
    EditedGap(text, e.end, rest);
    CutJoined(text, p, Edited(text, p, rest), e.begin);
    CutJoined(text, p, Edited(text, p, rest), e.end);
    EditedFirst(text, e, rest);
    Text.Regroup(text[..e.begin], e.text, out[e.end..]);
  }

  /** Replacing from the right, so that earlier positions stay valid, is replacing all at once. */
  method Splice(text: string, edits: seq<Edit>) returns (out: string)
    requires InOrder(edits, 0, |text|)
    ensures out == Edited(text, 0, edits)
  {
    out := text;
    var k := |edits|;
    while k > 0
      invariant 0 <= k <= |edits|
      invariant Bound(edits, k, |text|) <= |text| && InOrder(edits[k..], Bound(edits, k, |text|), |text|)
      invariant out == text[..Bound(edits, k, |text|)] + Edited(text, Bound(edits, k, |text|), edits[k..])
    {
      ghost var rest := edits[k..];
      k := k - 1;
      var e := edits[k];
      InOrderSplit(edits, 0, |text|, k);
      assert edits[k..] == [e] + rest;
      SpliceStep(text, e, rest, out);
      out := out[..e.begin] + e.text + out[e.end..];
    }
    assert edits[0..] == edits;
    EditedGap(text, 0, edits);
  }

  lemma Pieces(text: string, a: nat, b: nat, c: nat)
    requires a <= b <= c <= |text|
    ensures text[a..b] + text[b..c] + text[c..] == text[a..]
  {
  }

  /** Editing every comment to itself changes nothing. */
  lemma {:induction false} EditedIdentity(text: string, from: nat, edits: seq<Edit>)
    requires InOrder(edits, from, |text|)
    requires forall e | e in edits :: e.begin <= e.end <= |text| && e.text == text[e.begin..e.end]
    ensures Edited(text, from, edits) == text[from..]
    decreases |edits|
  {
    if edits != [] {
      var e, rest := edits[0], edits[1..];
      InOrderBound(rest, e.end, |text|);
      EditedIdentity(text, e.end, rest);
      Pieces(text, from, e.begin, e.end);
    }
  }

  // ----- Rewriting a header -----

  /** The edit of one comment, if it is to be rewritten; a doubled line feed after a block is avoided. */
  function EditOf(text: string, s: Span, rewrite: (Style, string) -> Option<string>): seq<Edit>
    requires s.begin <= s.end <= |text|
  {
    match rewrite(s.style, text[s.begin..s.end])
    case None => []
    case Some(r) =>
      var drop := s.style == Block && StartsAt(text, "\n", s.end) && EndsWith(r, "\n");
      [Edit(s.begin, s.end, if drop then r[..|r| - 1] else r)]
  }

  predicate Inside(text: string, spans: seq<Span>) {
    forall s | s in spans :: s.begin <= s.end <= |text|
  }

  function EditsOf(text: string, spans: seq<Span>, rewrite: (Style, string) -> Option<string>): seq<Edit>
    requires Inside(text, spans)
  {
    if spans == [] then [] else EditOf(text, spans[0], rewrite) + EditsOf(text, spans[1..], rewrite)
  }

  lemma {:induction false} LeadingInside(text: string, marker: string, start: nat, spans: seq<Span>)
    requires LeadingTo(text, marker, start, spans)
    ensures Inside(text, spans)
    decreases |spans|
  {
    if spans != [] {
      LeadingInside(text, marker, spans[0].end, spans[1..]);
    }
  }

  lemma {:induction false} EditsInOrder(text: string, marker: string, start: nat, spans: seq<Span>,
                                        rewrite: (Style, string) -> Option<string>, from: nat)
    requires LeadingTo(text, marker, start, spans) && Inside(text, spans) && from <= start
    ensures InOrder(EditsOf(text, spans, rewrite), from, |text|)
    decreases |spans|
  {
    if spans != [] {
      var rest := EditsOf(text, spans[1..], rewrite);
      EditsInOrder(text, marker, spans[0].end, spans[1..], rewrite, from);
      EditsInOrder(text, marker, spans[0].end, spans[1..], rewrite, spans[0].end);
      var first := EditOf(text, spans[0], rewrite);
      assert first == [] ==> first + rest == rest;
      assert first != [] ==> (first + rest)[1..] == rest;
    }
  }

  /** Nothing but white space follows the last comment. */
  predicate HeaderOnly(text: string, start: nat, spans: seq<Span>) {
    EndOf(start, spans) <= |text| && SkipSpace(text, EndOf(start, spans)) == |text|
  }

  /**
   Rewrites the leading comments in place.  The text around them is unchanged, except that a
   file with nothing else in it ends with exactly one line feed.
   */
  method RewriteHeader(text: string, marker: string, start: nat, rewrite: (Style, string) -> Option<string>)
    returns (r: Option<string>)
    requires Marker(marker) && start <= |text|
    ensures r.None? <==> Broken(text, marker, start)
    ensures r.Some? ==>
              exists spans | LeadingTo(text, marker, start, spans) && Inside(text, spans) ::
                && !OpensComment(text, marker, SkipSpace(text, EndOf(start, spans)))
                && var edits := EditsOf(text, spans, rewrite);
                   && InOrder(edits, 0, |text|)
                   && var plain := Edited(text, 0, edits);
                      r.value == if edits != [] && HeaderOnly(text, start, spans) then RStrip(plain) + "\n" else plain
  {
    var scan := ScanComments(text, marker, start);
    if !scan.Found? {
      return None;
    }
    var spans := scan.spans;
    LeadingInside(text, marker, start, spans);
    EditsInOrder(text, marker, start, spans, rewrite, 0);
    var edits := EditsOf(text, spans, rewrite);
    var out := Splice(text, edits);
    if edits != [] && HeaderOnly(text, start, spans) {
      out := RStrip(out) + "\n";
    }
    assert LeadingTo(text, marker, start, spans);
    r := Some(out);
  }
}
