/**
 Normalising the header of a whole file, in a language other than C and Python: its line
 endings are read, its leading comments scanned, the owner's notices in them rewritten, and
 the endings put back.  Comments that are not line comments enter through a parameter.
 */
module HeaderFile {
  import opened Options
  import opened Text
  import opened LeadingComments
  import opened LineEndings
  import H = HeaderComment

  // ----- What a comment says -----

  datatype Notice =
    | NoNotice
    | OthersNotice
    | Documented                          // the owner's notice in a documentation comment: not rewritten
    | Owned(result: H.Normalization)

  datatype Reading = Reading(notice: Notice, conflict: bool)

  /** The marker of line comments, and what comments of the other styles say. */
  datatype Reader = Reader(marker: string, other: (Style, string) -> Reading)

  function ReadLineComment(comment: string, marker: string): Reading {
    var body := H.Body(comment, marker);
    var notice :=
      if exists l | l in body :: H.IsCopyright(l) && H.HasOwner(l) then Owned(H.NormalizeComment(comment, marker))
      else if exists l | l in body :: H.IsCopyright(l) then OthersNotice
      else NoNotice;
    Reading(notice, exists l | l in body :: H.Conflicts(l))
  }

  function Read(r: Reader, style: Style, comment: string): Reading {
    if style == Line then ReadLineComment(comment, r.marker) else r.other(style, comment)
  }

  function Rewriting(r: Reader): (Style, string) -> Option<string> {
    (style, comment) =>
      var notice := Read(r, style, comment).notice;
      if notice.Owned? && notice.result.Text? then Some(notice.result.comment) else None
  }

  // ----- Text between the edits -----

  /** The text before, between and after the edits. */
  function Gaps(text: string, from: nat, edits: seq<Edit>): (g: seq<string>)
    requires InOrder(edits, from, |text|)
    ensures |g| == |edits| + 1
    decreases |edits|
  {
    if edits == [] then [text[from..]]
    else
      InOrderBound(edits[1..], edits[0].end, |text|);
      [text[from..edits[0].begin]] + Gaps(text, edits[0].end, edits[1..])
  }

  function Olds(text: string, edits: seq<Edit>): (r: seq<string>)
    requires forall e | e in edits :: e.begin <= e.end <= |text|
    ensures |r| == |edits|
  {
    seq(|edits|, i requires 0 <= i < |edits| => text[edits[i].begin..edits[i].end])
  }

  function News(edits: seq<Edit>): (r: seq<string>)
    ensures |r| == |edits|
  {
    seq(|edits|, i requires 0 <= i < |edits| => edits[i].text)
  }

  /** Gaps and pieces in turn. */
  function Weave(gaps: seq<string>, pieces: seq<string>): string
    requires |gaps| == |pieces| + 1
    decreases |pieces|
  {
    if pieces == [] then gaps[0] else gaps[0] + pieces[0] + Weave(gaps[1..], pieces[1..])
  }

  lemma {:induction false} InOrderInside(edits: seq<Edit>, from: nat, length: nat)
    requires InOrder(edits, from, length)
    ensures forall e | e in edits :: e.begin <= e.end <= length
    decreases |edits|
  {
    if edits != [] {
      InOrderBound(edits[1..], edits[0].end, length);
      InOrderInside(edits[1..], edits[0].end, length);
    }
  }

  lemma {:induction false} EditedIsWoven(text: string, from: nat, edits: seq<Edit>)
    requires InOrder(edits, from, |text|)
    ensures Edited(text, from, edits) == Weave(Gaps(text, from, edits), News(edits))
    decreases |edits|
  {
    if edits != [] {
      InOrderBound(edits[1..], edits[0].end, |text|);
      EditedIsWoven(text, edits[0].end, edits[1..]);
      assert News(edits)[1..] == News(edits[1..]);
      assert Gaps(text, from, edits)[1..] == Gaps(text, edits[0].end, edits[1..]);
    }
  }

  lemma {:induction false} TextIsWoven(text: string, from: nat, edits: seq<Edit>)
    requires InOrder(edits, from, |text|) && from <= |text|
    requires forall e | e in edits :: e.begin <= e.end <= |text|
    ensures text[from..] == Weave(Gaps(text, from, edits), Olds(text, edits))
    decreases |edits|
  {
    if edits != [] {
      var e, rest := edits[0], edits[1..];
      InOrderBound(rest, e.end, |text|);
      TextIsWoven(text, e.end, rest);
      assert Olds(text, edits)[1..] == Olds(text, rest);
      assert Gaps(text, from, edits)[1..] == Gaps(text, e.end, rest);
      Pieces(text, from, e.begin, e.end);
    }
  }

  // ----- Writing the endings back, piece by piece -----

  function RestoreAll(pieces: seq<string>, newline: string): (r: seq<string>)
    ensures |r| == |pieces| && forall i | 0 <= i < |r| :: r[i] == Restore(pieces[i], newline)
  {
    seq(|pieces|, i requires 0 <= i < |pieces| => Restore(pieces[i], newline))
  }

  lemma {:induction false} RestoreJoined(a: string, b: string, newline: string)
    ensures Restore(a + b, newline) == Restore(a, newline) + Restore(b, newline)
  {
    if a == "" {
      assert a + b == b;
    } else {
      RestoreJoined(a[1..], b, newline);
      assert (a + b)[1..] == a[1..] + b;
    }
  }

  lemma {:induction false} RestoreWoven(gaps: seq<string>, pieces: seq<string>, newline: string)
    requires |gaps| == |pieces| + 1
    ensures Restore(Weave(gaps, pieces), newline) == Weave(RestoreAll(gaps, newline), RestoreAll(pieces, newline))
    decreases |pieces|
  {
    if pieces != [] {
      var rest := Weave(gaps[1..], pieces[1..]);
      RestoreWoven(gaps[1..], pieces[1..], newline);
      RestoreJoined(gaps[0] + pieces[0], rest, newline);
      RestoreJoined(gaps[0], pieces[0], newline);
      assert RestoreAll(gaps, newline)[1..] == RestoreAll(gaps[1..], newline);
      assert RestoreAll(pieces, newline)[1..] == RestoreAll(pieces[1..], newline);
    }
  }

  /** Editing the text on line feeds edits the file: what lies between the edits keeps its bytes. */
  lemma EditsAreLocal(s: string, edits: seq<Edit>)
    requires Accepts(s) && InOrder(edits, 0, |ToFeeds(s)|)
    requires forall e | e in edits :: e.begin <= e.end <= |ToFeeds(s)|
    ensures var text, newline := ToFeeds(s), Newline(s);
            var gaps := RestoreAll(Gaps(text, 0, edits), newline);
            && s == Weave(gaps, RestoreAll(Olds(text, edits), newline))
            && Restore(Edited(text, 0, edits), newline) == Weave(gaps, RestoreAll(News(edits), newline))
  {
    var text, newline := ToFeeds(s), Newline(s);
    RoundTrip(s);
    TextIsWoven(text, 0, edits);
    EditedIsWoven(text, 0, edits);
    RestoreWoven(Gaps(text, 0, edits), Olds(text, edits), newline);
    RestoreWoven(Gaps(text, 0, edits), News(edits), newline);
    assert text[0..] == text;
  }

  // ----- The whole file -----

  datatype Refusal = MixedEndings | BrokenComment | UnrecognizedNotice | ConflictingLicence | MissingHeader

  datatype Result =
    | Refused(why: Refusal)
    | Preserved                           // only other owners' notices
    | Rewritten(file: string)
    | Added(file: string)

  /** All the comments in front of the first statement. */
  ghost predicate AreLeading(text: string, marker: string, start: nat, spans: seq<Span>) {
    && LeadingTo(text, marker, start, spans) && Inside(text, spans)
    && !OpensComment(text, marker, SkipSpace(text, EndOf(start, spans)))
  }

  function ReadSpan(text: string, r: Reader, s: Span): Reading
    requires s.begin <= s.end <= |text|
  {
    Read(r, s.style, text[s.begin..s.end])
  }

  /** A comment with the owner's notice that cannot be normalised. */
  predicate Faulty(x: Reading) {
    x.notice.Owned? && !x.notice.result.Text?
  }

  predicate AnyFaulty(text: string, r: Reader, spans: seq<Span>)
    requires Inside(text, spans)
  {
    exists s | s in spans :: Faulty(ReadSpan(text, r, s))
  }

  /** The first comment that cannot be normalised is the `i`-th. */
  ghost predicate FirstFault(text: string, r: Reader, spans: seq<Span>, i: int)
    requires Inside(text, spans)
  {
    && 0 <= i < |spans| && Faulty(ReadSpan(text, r, spans[i]))
    && forall k | 0 <= k < i :: !Faulty(ReadSpan(text, r, spans[k]))
  }

  /** The first comment that cannot be normalised is left to a human for this reason. */
  ghost predicate FirstFaultIs(text: string, r: Reader, spans: seq<Span>, reason: H.Normalization)
    requires Inside(text, spans)
  {
    exists i :: FirstFault(text, r, spans, i) && ReadSpan(text, r, spans[i]).notice.result == reason
  }

  predicate AnyOwned(text: string, r: Reader, spans: seq<Span>)
    requires Inside(text, spans)
  {
    exists s | s in spans :: ReadSpan(text, r, s).notice.Owned?
  }

  predicate AnyDocumented(text: string, r: Reader, spans: seq<Span>)
    requires Inside(text, spans)
  {
    exists s | s in spans :: ReadSpan(text, r, s).notice.Documented?
  }

  predicate AnyNotice(text: string, r: Reader, spans: seq<Span>)
    requires Inside(text, spans)
  {
    exists s | s in spans :: !ReadSpan(text, r, s).notice.NoNotice?
  }

  predicate AnyConflict(text: string, r: Reader, spans: seq<Span>)
    requires Inside(text, spans)
  {
    exists s | s in spans :: ReadSpan(text, r, s).conflict
  }

  /** Only other owners claim the file. */
  predicate OthersOnly(text: string, r: Reader, spans: seq<Span>)
    requires Inside(text, spans)
  {
    AnyNotice(text, r, spans) && !AnyOwned(text, r, spans) && !AnyDocumented(text, r, spans)
  }

  /** What the comments say, or the result of the first one that cannot be normalised. */
  datatype Survey =
    | Survey(notice: bool, owned: bool, documented: bool, conflict: bool)
    | Fault(reason: H.Normalization)

  function Surveyed(text: string, r: Reader, spans: seq<Span>): Survey
    requires Inside(text, spans)
  {
    Survey(AnyNotice(text, r, spans), AnyOwned(text, r, spans), AnyDocumented(text, r, spans),
           AnyConflict(text, r, spans))
  }

  function Noted(v: Survey, x: Reading): Survey
    requires v.Survey?
  {
    Survey(v.notice || !x.notice.NoNotice?, v.owned || x.notice.Owned?, v.documented || x.notice.Documented?,
           v.conflict || x.conflict)
  }

  lemma SurveyedSnoc(text: string, r: Reader, spans: seq<Span>, s: Span)
    requires Inside(text, spans) && Inside(text, [s]) && Inside(text, spans + [s])
    ensures Surveyed(text, r, spans + [s]) == Noted(Surveyed(text, r, spans), ReadSpan(text, r, s))
  {
    assert forall x :: x in spans + [s] <==> x in spans || x == s;
  }

  /** The comments before a position are read, and none of them is faulty. */
  ghost predicate SurveyedUpTo(text: string, r: Reader, spans: seq<Span>, i: nat, v: Survey)
    requires Inside(text, spans) && i <= |spans|
  {
    v == Surveyed(text, r, spans[..i]) && forall k | 0 <= k < i :: !Faulty(ReadSpan(text, r, spans[k]))
  }

  lemma SurveyStops(text: string, r: Reader, spans: seq<Span>, i: nat, v: Survey, x: Reading)
    requires Inside(text, spans) && i < |spans| && SurveyedUpTo(text, r, spans, i, v)
    requires x == ReadSpan(text, r, spans[i]) && Faulty(x)
    ensures FirstFaultIs(text, r, spans, x.notice.result)
  {
    assert FirstFault(text, r, spans, i);
  }

  lemma SurveyGoesOn(text: string, r: Reader, spans: seq<Span>, i: nat, v: Survey, x: Reading)
    requires Inside(text, spans) && i < |spans| && SurveyedUpTo(text, r, spans, i, v)
    requires x == ReadSpan(text, r, spans[i]) && !Faulty(x)
    ensures SurveyedUpTo(text, r, spans, i + 1, Noted(v, x))
  {
    var before, s := spans[..i], spans[i];
    assert spans[..i + 1] == before + [s];
    SurveyedSnoc(text, r, before, s);
  }

  lemma SurveyEnd(text: string, r: Reader, spans: seq<Span>, v: Survey)
    requires Inside(text, spans) && SurveyedUpTo(text, r, spans, |spans|, v)
    ensures v == Surveyed(text, r, spans) && !AnyFaulty(text, r, spans)
  {
    assert spans[..|spans|] == spans;
  }

  lemma FaultIsThere(text: string, r: Reader, spans: seq<Span>, reason: H.Normalization)
    requires Inside(text, spans)
    ensures FirstFaultIs(text, r, spans, reason) ==> AnyFaulty(text, r, spans)
  {
    if FirstFaultIs(text, r, spans, reason) {
      var i :| FirstFault(text, r, spans, i);
      assert spans[i] in spans;
    }
  }

  /** Reads the comments one after the other, and stops at a notice it cannot normalise. */
  method SurveyComments(text: string, r: Reader, spans: seq<Span>) returns (v: Survey)
    requires Inside(text, spans)
    ensures v.Fault? <==> AnyFaulty(text, r, spans)
    ensures v.Fault? ==> !v.reason.Text? && FirstFaultIs(text, r, spans, v.reason)
    ensures v.Survey? ==> v == Surveyed(text, r, spans)
  {
    v := Survey(false, false, false, false);
    for i := 0 to |spans|
      invariant SurveyedUpTo(text, r, spans, i, v)
    {
      var x := ReadSpan(text, r, spans[i]);
      if Faulty(x) {
        SurveyStops(text, r, spans, i, v, x);
        FaultIsThere(text, r, spans, x.notice.result);
        return Fault(x.notice.result);
      }
      SurveyGoesOn(text, r, spans, i, v, x);
      v := Noted(v, x);
    }
    SurveyEnd(text, r, spans, v);
  }

  /** There is at most one first fault, so the reason is determined. */
  lemma OneReason(text: string, r: Reader, spans: seq<Span>, a: H.Normalization, b: H.Normalization)
    requires Inside(text, spans) && FirstFaultIs(text, r, spans, a) && FirstFaultIs(text, r, spans, b)
    ensures a == b && !a.Text? && AnyFaulty(text, r, spans)
  {
    var i :| FirstFault(text, r, spans, i) && ReadSpan(text, r, spans[i]).notice.result == a;
    var k :| FirstFault(text, r, spans, k) && ReadSpan(text, r, spans[k]).notice.result == b;
    assert i == k;
  }

  lemma FaultReason(text: string, r: Reader, spans: seq<Span>, reason: H.Normalization)
    requires Inside(text, spans) && FirstFaultIs(text, r, spans, reason)
    ensures AnyFaulty(text, r, spans)
    ensures FirstFaultIs(text, r, spans, H.Unrecognized) <==> reason == H.Unrecognized
    ensures FirstFaultIs(text, r, spans, H.Conflicting) <==> reason == H.Conflicting
  {
    OneReason(text, r, spans, reason, reason);
    if FirstFaultIs(text, r, spans, H.Unrecognized) {
      OneReason(text, r, spans, reason, H.Unrecognized);
    }
    if FirstFaultIs(text, r, spans, H.Conflicting) {
      OneReason(text, r, spans, reason, H.Conflicting);
    }
  }

  /** The header that is put into a file without one. */
  function NewHeader(marker: string): string {
    H.Marked(marker, H.NOTICE) + "\n" + H.Marked(marker, H.LICENCE_STOP) + "\n\n"
  }

  /** The new header goes after the file's first `start` characters, on a line of its own. */
  function HeaderEdit(text: string, marker: string, start: nat): Edit
    requires start <= |text|
  {
    var apart := if start > 0 && text[start - 1] != '\n' then "\n" else "";
    Edit(start, start, apart + NewHeader(marker))
  }

  /** A file left with nothing but its header ends with one line feed. */
  function Ended(text: string, headerOnly: bool): string {
    if headerOnly then RStrip(text) + "\n" else text
  }

  /**
   The file is a sequence of gaps and comments, and the new file has the same gaps, with their
   own line endings, around the new comments; white space at the end may go when nothing but
   the header is in the file.
   */
  ghost predicate OnlyEdited(s: string, edits: seq<Edit>, headerOnly: bool, file: string) {
    var text, newline := ToFeeds(s), Newline(s);
    && InOrder(edits, 0, |text|) && (forall e | e in edits :: e.begin <= e.end <= |text|)
    && var gaps := RestoreAll(Gaps(text, 0, edits), newline);
       && s == Weave(gaps, RestoreAll(Olds(text, edits), newline))
       && Restore(Edited(text, 0, edits), newline) == Weave(gaps, RestoreAll(News(edits), newline))
       && file == Restore(Ended(Edited(text, 0, edits), headerOnly), newline)
  }

  ghost predicate Decided(s: string, r: Reader, start: nat, addMissing: bool, spans: seq<Span>, out: Result)
    requires Inside(ToFeeds(s), spans) && start <= |ToFeeds(s)|
  {
    var text := ToFeeds(s);
    var faulty, others := AnyFaulty(text, r, spans), OthersOnly(text, r, spans);
    var conflict, owned := AnyConflict(text, r, spans), AnyOwned(text, r, spans);
    var add := addMissing || AnyDocumented(text, r, spans);
    && (out == Refused(UnrecognizedNotice) <==> FirstFaultIs(text, r, spans, H.Unrecognized))
    && (out == Refused(ConflictingLicence) <==>
        FirstFaultIs(text, r, spans, H.Conflicting) || (!faulty && !others && conflict))
    && (out == Preserved <==> !faulty && others)
    && (out.Rewritten? <==> !faulty && !conflict && owned)
    && (out.Added? <==> !faulty && !others && !conflict && !owned && add)
    && (out == Refused(MissingHeader) <==> !faulty && !others && !conflict && !owned && !add)
    && (out.Rewritten? ==>
          OnlyEdited(s, EditsOf(text, spans, Rewriting(r)), HeaderOnly(text, start, spans), out.file))
    && (out.Added? ==>
          OnlyEdited(s, [HeaderEdit(text, r.marker, start)], Strip(text[start..]) == "", out.file))
  }

  lemma RewritingEdits(s: string, r: Reader, start: nat, spans: seq<Span>)
    requires Accepts(s) && LeadingTo(ToFeeds(s), r.marker, start, spans) && Inside(ToFeeds(s), spans)
    ensures var text := ToFeeds(s);
            var edits := EditsOf(text, spans, Rewriting(r));
            && InOrder(edits, 0, |text|)
            && OnlyEdited(s, edits, HeaderOnly(text, start, spans),
                          Restore(Ended(Edited(text, 0, edits), HeaderOnly(text, start, spans)), Newline(s)))
  {
    var text := ToFeeds(s);
    var edits := EditsOf(text, spans, Rewriting(r));
    EditsInOrder(text, r.marker, start, spans, Rewriting(r), 0);
    InOrderInside(edits, 0, |text|);
    EditsAreLocal(s, edits);
  }

  lemma AddingEdits(s: string, marker: string, start: nat)
    requires Accepts(s) && start <= |ToFeeds(s)|
    ensures var text := ToFeeds(s);
            var e := HeaderEdit(text, marker, start);
            var headerOnly := Strip(text[start..]) == "";
            OnlyEdited(s, [e], headerOnly,
                       Restore(Ended(text[..start] + e.text + text[start..], headerOnly), Newline(s)))
  {
    var text := ToFeeds(s);
    var e := HeaderEdit(text, marker, start);
    assert InOrder([e][1..], start, |text|);
    assert Edited(text, 0, [e]) == text[..start] + e.text + text[start..];
    EditsAreLocal(s, [e]);
  }

  /** A file whose comments are all normal is left as it is, but for white space after a lone header. */
  lemma CanonicalUnchanged(s: string, edits: seq<Edit>, headerOnly: bool, file: string)
    requires Accepts(s) && OnlyEdited(s, edits, headerOnly, file)
    requires forall e | e in edits :: e.text == ToFeeds(s)[e.begin..e.end]
    ensures file == s <==> Ended(ToFeeds(s), headerOnly) == ToFeeds(s)
  {
    var text, newline := ToFeeds(s), Newline(s);
    EditedIdentity(text, 0, edits);
    assert text[0..] == text;
    RoundTrip(s);
    AcceptsExactly(s);
    FeedsOnly(s);
    var ended := Ended(text, headerOnly);
    assert CR !in ended;
    WriteThenRead(ended, newline);
    WriteThenRead(text, newline);
  }

  /** The comments that carry the owner's notice. */
  function OwnedSpans(text: string, r: Reader, spans: seq<Span>): (owned: seq<Span>)
    requires Inside(text, spans)
    ensures forall s :: s in owned <==> s in spans && ReadSpan(text, r, s).notice.Owned?
  {
    if spans == [] then []
    else (if ReadSpan(text, r, spans[0]).notice.Owned? then [spans[0]] else []) + OwnedSpans(text, r, spans[1..])
  }

  /** The edit replaces the comment, a line comment by its normal form. */
  ghost predicate Replaces(text: string, r: Reader, e: Edit, s: Span)
    requires s.begin <= s.end <= |text|
  {
    && e.begin == s.begin && e.end == s.end
    && (s.style == Line ==> H.NormalizeComment(text[s.begin..s.end], r.marker) == H.Text(e.text))
  }

  lemma EditIsOwned(text: string, r: Reader, s: Span, edit: seq<Edit>)
    requires s.begin <= s.end <= |text| && edit == EditOf(text, s, Rewriting(r))
    requires !Faulty(ReadSpan(text, r, s))
    ensures |edit| == if ReadSpan(text, r, s).notice.Owned? then 1 else 0
    ensures |edit| == 1 ==> Replaces(text, r, edit[0], s)
  {
  }

  /** The edits replace the comments that carry the owner's notice, in order. */
  lemma {:induction false} EditsAreOwned(text: string, r: Reader, spans: seq<Span>, i: nat)
    requires Inside(text, spans) && !AnyFaulty(text, r, spans)
    ensures var edits, owned := EditsOf(text, spans, Rewriting(r)), OwnedSpans(text, r, spans);
            |edits| == |owned| && (i < |owned| ==> Replaces(text, r, edits[i], owned[i]))
    decreases |spans|
  {
    if spans != [] {
      var w, rest := Rewriting(r), spans[1..];
      var first := EditOf(text, spans[0], w);
      EditIsOwned(text, r, spans[0], first);
      assert EditsOf(text, spans, w) == first + EditsOf(text, rest, w);
      assert !AnyFaulty(text, r, rest);
      EditsAreOwned(text, r, rest, if i >= |first| then i - |first| else 0);
    }
  }

  /** What is done to an accepted file, given the comments in front of its first statement. */
  method NormalizeHeader(s: string, r: Reader, start: nat, addMissing: bool, spans: seq<Span>) returns (out: Result)
    requires Accepts(s) && LeadingTo(ToFeeds(s), r.marker, start, spans) && Inside(ToFeeds(s), spans)
    ensures out.Refused? ==> out.why != MixedEndings && out.why != BrokenComment
    ensures Decided(s, r, start, addMissing, spans, out)
  {
    var text, newline := ToFeeds(s), Newline(s);
    var v := SurveyComments(text, r, spans);
    if v.Fault? {
      FaultReason(text, r, spans, v.reason);
      return Refused(if v.reason.Unrecognized? then UnrecognizedNotice else ConflictingLicence);
    }
    FaultIsThere(text, r, spans, H.Unrecognized);
    FaultIsThere(text, r, spans, H.Conflicting);
    if v.notice && !v.owned && !v.documented {
      return Preserved;
    }
    if v.conflict {
      return Refused(ConflictingLicence);
    }
    if v.owned {
      var edits := EditsOf(text, spans, Rewriting(r));
      RewritingEdits(s, r, start, spans);
      var edited := Splice(text, edits);
      return Rewritten(Restore(Ended(edited, HeaderOnly(text, start, spans)), newline));
    }
    if !addMissing && !v.documented {
      return Refused(MissingHeader);
    }
    AddingEdits(s, r.marker, start);
    var e := HeaderEdit(text, r.marker, start);
    var full := text[..start] + e.text + text[start..];
    out := Added(Restore(Ended(full, Strip(text[start..]) == ""), newline));
  }

  method NormalizeFile(s: string, r: Reader, start: nat, addMissing: bool) returns (out: Result)
    requires Marker(r.marker) && start <= |ToFeeds(s)|
    ensures out == Refused(MixedEndings) <==> !Accepts(s)
    ensures out == Refused(BrokenComment) <==> Accepts(s) && Broken(ToFeeds(s), r.marker, start)
    ensures Accepts(s) && !Broken(ToFeeds(s), r.marker, start) ==>
              exists spans | AreLeading(ToFeeds(s), r.marker, start, spans) ::
                Decided(s, r, start, addMissing, spans, out)
  {
    if !Accepts(s) {
      return Refused(MixedEndings);
    }
    var scan := ScanComments(ToFeeds(s), r.marker, start);
    if !scan.Found? {
      return Refused(BrokenComment);
    }
    LeadingInside(ToFeeds(s), r.marker, start, scan.spans);
    out := NormalizeHeader(s, r, start, addMissing, scan.spans);
  }
}
