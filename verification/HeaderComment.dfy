/**
 The header notices of line-style comments: what the patterns match on one line, and the
 comment written back with its marker on every line.
 */
module HeaderComment {
  import opened Options
  import opened Text
  import opened LicenceLines

  const NOTICE := "Copyright" + " (c) " + "Microsoft" + " " + CORPORATION
  const PORTIONS := "Portions " + NOTICE
  const RESERVED := "All rights reserved."
  const LICENCE := "Licensed under the MIT License"
  const LICENCE_STOP := LICENCE + "."
  const SOURCE_CODE := "This source code is licensed" + " under the MIT license found in the"
  const LICENCE_FILE := "LICENSE file in the root" + " directory of this source tree."
  const IDENTIFIER := "SPDX-License-Identifier:"
  const CORPORATION := "Corporation" + "."

  predicate IsBlank(c: char) {
    c == ' ' || c == '\t'
  }

  function Lower(c: char): char {
    if 'A' <= c <= 'Z' then c - 'A' + 'a' else c
  }

  /** A word in lower case occurs at `i`, in any case. */
  predicate OccursInAnyCase(s: string, word: string, i: int) {
    0 <= i <= |s| - |word| && forall k | 0 <= k < |word| :: Lower(s[i + k]) == word[k]
  }

  predicate WordEnd(s: string, i: int) {
    0 <= i <= |s| && (i == |s| || !IsWord(s[i]))
  }

  /** Nothing but blanks from `i` on. */
  predicate BlankFrom(s: string, i: nat) {
    i <= |s| && SkipWhile(s, i, IsBlank) == |s|
  }

  // ----- The patterns, on one line -----

  /** Past the blanks, one star and one blank after it. */
  function PrefixEnd(line: string): (e: nat)
    ensures e <= |line|
  {
    var n := SkipWhile(line, 0, IsBlank);
    if n == |line| || line[n] != '*' then n
    else if n + 1 < |line| && IsBlank(line[n + 1]) then n + 2
    else n + 1
  }

  /** Past the notice that starts at `p`; `p` itself when there is none. */
  function NoticeEnd(line: string, p: nat): (e: nat)
    requires p <= |line|
    ensures p <= e <= |line|
  {
    if OccursAt(line, NOTICE, p) then p + |NOTICE|
    else if OccursAt(line, PORTIONS, p) then p + |PORTIONS|
    else p
  }

  predicate NoticeTail(line: string, e: nat)
    requires e <= |line|
  {
    var b := SkipWhile(line, e, IsBlank);
    b == |line| || (e < b && OccursAt(line, RESERVED, b) && BlankFrom(line, b + |RESERVED|))
  }

  predicate IsNotice(line: string) {
    var p := PrefixEnd(line);
    var e := NoticeEnd(line, p);
    p < e && NoticeTail(line, e)
  }

  predicate MitText(line: string, text: string) {
    var p := PrefixEnd(line);
    OccursAt(line, text, p) && BlankFrom(line, p + |text|)
  }

  predicate IsMit(line: string) {
    MitText(line, LICENCE) || MitText(line, LICENCE_STOP) || MitText(line, SPDX)
    || MitText(line, SOURCE_CODE) || MitText(line, LICENCE_FILE)
  }

  /** Past the blanks, one star and the blanks after it. */
  function TextStart(line: string): (e: nat)
    ensures e <= |line|
  {
    var n := SkipWhile(line, 0, IsBlank);
    if n == |line| || line[n] != '*' then n else SkipWhile(line, n + 1, IsBlank)
  }

  /** Past an optional first word of the copyright pattern and the blanks that follow it. */
  function AfterPortions(line: string, i: nat): (e: nat)
    requires i <= |line|
    ensures i <= e <= |line|
  {
    if !OccursInAnyCase(line, "portions", i) then i
    else
      var j := SkipWhile(line, i + 8, IsBlank);
      if j == i + 8 then i else j
  }

  predicate IsCopyright(line: string) {
    var i := AfterPortions(line, TextStart(line));
    OccursInAnyCase(line, "copyright", i) && WordEnd(line, i + 9)
  }

  predicate OwnerAt(line: string, i: nat) {
    && WordStart(line, i) && OccursInAnyCase(line, "microsoft", i)
    && var j := SkipWhile(line, i + 9, IsBlank);
       i + 9 < j && OccursInAnyCase(line, "corporation", j) && WordEnd(line, j + 11)
  }

  predicate HasOwner(line: string) {
    exists i: nat | i < |line| :: OwnerAt(line, i)
  }

  predicate IsFiller(line: string) {
    forall c | c in line :: IsBlank(c) || c == '*'
  }

  predicate ForeignIdentifier(line: string) {
    exists i | 0 <= i <= |line| - |IDENTIFIER| ::
      OccursAt(line, IDENTIFIER, i) && Strip(line[i + |IDENTIFIER|..]) != "MIT"
  }

  predicate Conflicts(line: string) {
    var content := Strip(line[PrefixEnd(line)..]);
    ForeignIdentifier(line)
    || (OccursInAnyCase(content, "licensed under ", 0) && content != LICENCE && content != LICENCE_STOP)
  }

  /** Where the blanks at the end of a line begin. */
  function BlankTail(s: string): (e: nat)
    ensures e <= |s| && (e > 0 ==> !IsBlank(s[e - 1]))
    ensures forall k | e <= k < |s| :: IsBlank(s[k])
  {
    if s != "" && IsBlank(s[|s| - 1]) then BlankTail(s[..|s| - 1]) else |s|
  }

  /** What stands before the licence identifier that ends a compact line. */
  function CompactFront(line: string): Option<string> {
    var e := BlankTail(line) - |SPDX|;
    if e < 0 || !OccursAt(line, SPDX, e) then None
    else
      var f := BlankTail(line[..e]);
      if f < e && EndsWith(line[..f], CORPORATION) then Some(line[..f]) else None
  }

  function KindOf(line: string): Kind {
    if IsNotice(line) then Notice
    else if IsCopyright(line) then
      if HasOwner(line) then OwnCopyright else OtherCopyright
    else if IsMit(line) then Mit
    else if IsFiller(line) then Filler
    else Prose
  }

  function TrimNotice(line: string): string {
    line[..NoticeEnd(line, PrefixEnd(line))]
  }

  function LicenceLine(line: string): string {
    line[..PrefixEnd(line)] + LICENCE_STOP
  }

  const HEADER := Rules(KindOf, TrimNotice, LicenceLine, Conflicts, CompactFront)

  // ----- The patterns do not overlap -----

  lemma NoticeStart(line: string)
    requires IsNotice(line)
    ensures var p := PrefixEnd(line);
            p < |line| && (line[p] == 'C' || line[p] == 'P')
  {
    var p := PrefixEnd(line);
    assert NOTICE[0] == 'C';
    assert PORTIONS[0] == 'P';
  }

  lemma MitStart(line: string)
    requires IsMit(line)
    ensures var p := PrefixEnd(line);
            p < |line| && !IsBlank(line[p]) && line[p] != '*' && line[p] in {'L', 'S', 'T'}
  {
    assert LICENCE[0] == 'L' && LICENCE_STOP[0] == 'L' && SPDX[0] == 'S';
    assert SOURCE_CODE[0] == 'T' && LICENCE_FILE[0] == 'L';
  }

  /** The two prefix patterns stop at the same place in front of a text. */
  lemma SameStart(line: string)
    requires var p := PrefixEnd(line); p < |line| && !IsBlank(line[p]) && line[p] != '*'
    ensures TextStart(line) == PrefixEnd(line)
  {
  }

  lemma MitIsNoCopyright(line: string)
    requires IsMit(line)
    ensures !IsCopyright(line)
  {
    MitStart(line);
    SameStart(line);
    var p := PrefixEnd(line);
    assert "portions"[0] == 'p' && "copyright"[0] == 'c';
    assert Lower(line[p + 0]) in {'l', 's', 't'};
  }

  lemma OccursJoined(s: string, a: string, b: string, i: int)
    requires OccursAt(s, a + b, i)
    ensures OccursAt(s, a, i) && OccursAt(s, b, i + |a|)
  {
    assert forall k | 0 <= k < |a| :: (a + b)[k] == a[k];
    assert forall k | 0 <= k < |b| :: (a + b)[|a| + k] == b[k];
  }

  predicate Lowers(upper: string, lower: string) {
    |upper| == |lower| && forall k | 0 <= k < |lower| :: Lower(upper[k]) == lower[k]
  }

  lemma AnyCase(s: string, upper: string, lower: string, i: int)
    requires OccursAt(s, upper, i) && Lowers(upper, lower)
    ensures OccursInAnyCase(s, lower, i)
  {
  }

  lemma NoticeParts(line: string, i: nat)
    requires OccursAt(line, NOTICE, i)
    ensures OccursAt(line, "Copyright", i) && line[i + 9] == ' '
    ensures line[i + 13] == ' ' && OccursAt(line, "Microsoft", i + 14)
    ensures line[i + 23] == ' ' && OccursAt(line, "Corporation", i + 24) && line[i + 35] == '.'
  {
    OccursJoined(line, "Copyright" + " (c) " + "Microsoft" + " ", CORPORATION, i);
    OccursJoined(line, "Copyright" + " (c) " + "Microsoft", " ", i);
    OccursJoined(line, "Copyright" + " (c) ", "Microsoft", i);
    OccursJoined(line, "Copyright", " (c) ", i);
    OccursJoined(line, "Corporation", ".", i + 24);
    assert " (c) "[0] == ' ' && " (c) "[4] == ' ' && " "[0] == ' ' && "."[0] == '.';
  }

  lemma WordsLowered()
    ensures Lowers("Copyright", "copyright") && Lowers("Microsoft", "microsoft")
    ensures Lowers("Corporation", "corporation") && Lowers("Portions", "portions")
  {
  }

  lemma NoticeWords(line: string, i: nat)
    requires OccursAt(line, NOTICE, i)
    ensures OccursInAnyCase(line, "copyright", i) && WordEnd(line, i + 9)
    ensures OwnerAt(line, i + 14)
  {
    NoticeParts(line, i);
    WordsLowered();
    AnyCase(line, "Copyright", "copyright", i);
    AnyCase(line, "Microsoft", "microsoft", i + 14);
    AnyCase(line, "Corporation", "corporation", i + 24);
    assert "Corporation"[0] == 'C';
    assert line[i + 24] == 'C';
    assert SkipWhile(line, i + 23, IsBlank) == i + 24;
  }

  lemma PortionsWords(line: string, i: nat)
    requires OccursAt(line, PORTIONS, i)
    ensures OccursInAnyCase(line, "portions", i) && AfterPortions(line, i) == i + 9
    ensures OccursAt(line, NOTICE, i + 9)
  {
    OccursJoined(line, "Portions ", NOTICE, i);
    WordsLowered();
    assert "Portions " == "Portions" + " ";
    OccursJoined(line, "Portions", " ", i);
    AnyCase(line, "Portions", "portions", i);
    assert " "[0] == ' ' && NOTICE[0] == 'C';
    assert line[i + 8] == ' ' && line[i + 9] == 'C';
    assert SkipWhile(line, i + 8, IsBlank) == i + 9;
  }

  lemma NoPortions(line: string, i: nat)
    requires OccursAt(line, NOTICE, i)
    ensures AfterPortions(line, i) == i
  {
    assert NOTICE[0] == 'C' && "portions"[0] == 'p';
    assert line[i + 0] == 'C';
  }

  lemma NoticeAt(line: string) returns (i: nat)
    requires IsNotice(line)
    ensures AfterPortions(line, PrefixEnd(line)) == i && OccursAt(line, NOTICE, i)
  {
    i := PrefixEnd(line);
    if OccursAt(line, NOTICE, i) {
      NoPortions(line, i);
    } else {
      PortionsWords(line, i);
      i := i + 9;
    }
  }

  lemma NoticeIsOwnCopyright(line: string)
    requires IsNotice(line)
    ensures IsCopyright(line) && HasOwner(line)
  {
    var i := NoticeAt(line);
    NoticeWords(line, i);
    assert HasOwner(line) by {
      assert OwnerAt(line, i + 14);
    }
    assert TextStart(line) == PrefixEnd(line) by {
      NoticeStart(line);
      SameStart(line);
    }
  }

  /** Every line has one kind, and the kinds say exactly what each pattern matches. */
  lemma KindExactly(line: string)
    ensures KindOf(line).Notice? <==> IsNotice(line)
    ensures KindOf(line).Notice? || KindOf(line).OwnCopyright? <==> IsCopyright(line) && HasOwner(line)
    ensures KindOf(line).OtherCopyright? <==> IsCopyright(line) && !HasOwner(line)
    ensures KindOf(line).Mit? <==> IsMit(line)
  {
    if IsNotice(line) {
      NoticeIsOwnCopyright(line);
    }
    if IsMit(line) {
      MitIsNoCopyright(line);
    }
  }

  // ----- The lines the tool writes -----

  /** A prefix stays the prefix of any text put after it. */
  lemma PrefixKept(line: string, other: string)
    requires var p := PrefixEnd(line);
             p < |other| && other[..p] == line[..p] && !IsBlank(other[p]) && other[p] != '*'
    ensures PrefixEnd(other) == PrefixEnd(line)
  {
    var n := SkipWhile(line, 0, IsBlank);
    assert forall k | 0 <= k < PrefixEnd(line) :: other[k] == line[k];
    assert SkipWhile(other, 0, IsBlank) == n;
  }

  lemma PrefixPlain(line: string)
    ensures forall k | 0 <= k < PrefixEnd(line) :: IsBlank(line[k]) || line[k] == '*'
  {
  }

  lemma TrimIsNotice(line: string)
    requires IsNotice(line)
    ensures IsNotice(TrimNotice(line)) && TrimNotice(TrimNotice(line)) == TrimNotice(line)
    ensures LicenceLine(TrimNotice(line)) == LicenceLine(line)
  {
    NoticeStart(line);
    var t, p := TrimNotice(line), PrefixEnd(line);
    PrefixKept(line, t);
    assert forall text, i | 0 <= i && i + |text| <= |t| :: OccursAt(t, text, i) <==> OccursAt(line, text, i);
  }

  lemma LicenceIsMit(line: string)
    ensures IsMit(LicenceLine(line)) && PrefixEnd(LicenceLine(line)) == PrefixEnd(line)
  {
    var t, p := LicenceLine(line), PrefixEnd(line);
    assert LICENCE_STOP[0] == 'L';
    assert t[p + 0] == 'L';
    PrefixKept(line, t);
    assert OccursAt(t, LICENCE_STOP, p);
  }

  lemma NoIdentifier(line: string)
    requires Plain(line)
    ensures !ForeignIdentifier(line)
  {
    assert IDENTIFIER[3] == 'X';
    forall i | 0 <= i <= |line| - |IDENTIFIER|
      ensures !OccursAt(line, IDENTIFIER, i)
    {
      assert line[i + 3] != 'X';
    }
  }

  /** No line feed, and not the letter every identifier has. */
  predicate Plain(s: string) {
    forall k | 0 <= k < |s| :: s[k] != 'X' && s[k] != '\n'
  }

  lemma NoticePlain()
    ensures Plain(NOTICE)
  {
    assert Plain("Copyright") && Plain(" (c) ") && Plain("Microsoft") && Plain(CORPORATION);
  }

  lemma LicencePlain()
    ensures Plain(LICENCE_STOP)
  {
    assert Plain(LICENCE);
  }

  lemma PortionsPlain()
    ensures Plain(PORTIONS)
  {
    NoticePlain();
    assert Plain("Portions ");
  }

  /** The trimmed notice is its prefix and one of the two notice texts. */
  lemma TrimText(line: string)
    requires IsNotice(line)
    ensures TrimNotice(line) == line[..PrefixEnd(line)] + NOTICE || TrimNotice(line) == line[..PrefixEnd(line)] + PORTIONS
  {
    var p := PrefixEnd(line);
    if OccursAt(line, NOTICE, p) {
      OccursSlice(line, NOTICE, p);
    } else {
      OccursSlice(line, PORTIONS, p);
    }
  }

  lemma OccursSlice(s: string, part: string, i: nat)
    requires OccursAt(s, part, i)
    ensures s[..i + |part|] == s[..i] + part
  {
  }

  lemma TrimPlain(line: string)
    requires IsNotice(line)
    ensures Plain(TrimNotice(line))
  {
    TrimText(line);
    NoticePlain();
    PortionsPlain();
    PrefixPlain(line);
  }

  lemma LicenceLinePlain(line: string)
    ensures Plain(LicenceLine(line))
  {
    LicencePlain();
    PrefixPlain(line);
  }

  /** A text that starts with another letter does not start with the word. */
  lemma OtherStart(s: string, word: string)
    requires s != "" && word != "" && Lower(s[0]) != word[0]
    ensures !OccursInAnyCase(s, word, 0)
  {
    if |word| <= |s| {
      assert s[0 + 0] == s[0];
    }
  }

  lemma ContentStart(text: string, c: char)
    requires text != "" && text[0] == c && !IsSpace(c)
    ensures Strip(text) != "" && Lower(Strip(text)[0]) == Lower(c)
  {
    StripFirst(text);
  }

  lemma NoDeclaration(t: string, content: string)
    requires content == Strip(t[PrefixEnd(t)..]) && content != "" && Lower(content[0]) != 'l'
    requires !ForeignIdentifier(t)
    ensures !Conflicts(t)
  {
    OtherStart(content, "licensed under ");
  }

  lemma NoLicenceText(t: string, p: nat)
    requires p < |t| && PrefixEnd(t) == p && (t[p] == 'C' || t[p] == 'P') && Plain(t)
    ensures !Conflicts(t)
  {
    NoIdentifier(t);
    ContentStart(t[p..], t[p]);
    NoDeclaration(t, Strip(t[p..]));
  }

  lemma TrimNoConflict(line: string)
    requires IsNotice(line)
    ensures !Conflicts(TrimNotice(line))
  {
    var t, p := TrimNotice(line), PrefixEnd(line);
    TrimPlain(line);
    NoticeStart(line);
    assert t[p] == line[p];
    PrefixKept(line, t);
    NoLicenceText(t, p);
  }

  lemma LicenceNoConflict(line: string)
    ensures !Conflicts(LicenceLine(line))
  {
    LicenceLinePlain(line);
    NoIdentifier(LicenceLine(line));
    LicenceContent(line);
  }

  lemma LicenceContent(line: string)
    ensures var t := LicenceLine(line); Strip(t[PrefixEnd(t)..]) == LICENCE_STOP
  {
    LicenceIsMit(line);
    assert LicenceLine(line)[PrefixEnd(line)..] == LICENCE_STOP;
    StripLicence();
  }

  lemma StripLicence()
    ensures Strip(LICENCE_STOP) == LICENCE_STOP
  {
    assert LICENCE_STOP[0] == 'L' && LICENCE_STOP[|LICENCE|] == '.';
    StripClean(LICENCE_STOP);
  }

  /** A compact line ends with the identifier. */
  lemma CompactEnd(line: string)
    requires CompactFront(line).Some?
    ensures BlankTail(line) > 0 && line[BlankTail(line) - 1] == 'T'
    ensures var f := CompactFront(line).value; BlankTail(f) == |f| && |f| > 1 && f[|f| - 1] == '.' && f[|f| - 2] == 'n'
  {
    var f := CompactFront(line).value;
    assert SPDX[|SPDX| - 1] == 'T';
    assert CORPORATION[|CORPORATION| - 1] == '.' && CORPORATION[|CORPORATION| - 2] == 'n';
    assert f[|f| - |CORPORATION|..] == CORPORATION;
  }

  /** The blanks at the end begin after the last character that is not blank. */
  lemma BlankTailAt(s: string, e: nat)
    requires 0 < e <= |s| && !IsBlank(s[e - 1]) && BlankFrom(s, e)
    ensures BlankTail(s) == e
  {
  }

  lemma StopIsNotCompact(line: string, e: nat)
    requires 0 < e <= |line| && line[e - 1] == '.' && BlankFrom(line, e)
    ensures CompactFront(line).None?
  {
    BlankTailAt(line, e);
    if CompactFront(line).Some? {
      CompactEnd(line);
    }
  }

  lemma NoticeStop(line: string)
    requires IsNotice(line)
    ensures line[NoticeEnd(line, PrefixEnd(line)) - 1] == '.'
  {
    assert NOTICE[|NOTICE| - 1] == '.' && PORTIONS[|PORTIONS| - 1] == '.';
  }

  lemma NoticeIsNotCompact(line: string)
    requires IsNotice(line)
    ensures CompactFront(line).None?
  {
    var e := NoticeEnd(line, PrefixEnd(line));
    NoticeStop(line);
    var b := SkipWhile(line, e, IsBlank);
    if b == |line| {
      StopIsNotCompact(line, e);
    } else {
      assert RESERVED[|RESERVED| - 1] == '.';
      StopIsNotCompact(line, b + |RESERVED|);
    }
  }

  /** Cannot end in the word that ends a compact line's front. */
  predicate EndsApart(text: string) {
    |text| > 1 && !IsBlank(text[|text| - 1]) && (text[|text| - 1] == '.' ==> text[|text| - 2] != 'n')
  }

  lemma LicenceEnds()
    ensures EndsApart(LICENCE) && EndsApart(LICENCE_STOP)
  {
    assert LICENCE[|LICENCE| - 1] == 'e';
    assert LICENCE_STOP[|LICENCE|] == '.' && LICENCE_STOP[|LICENCE| - 1] == 'e';
  }

  lemma OtherEnds()
    ensures EndsApart(SPDX) && EndsApart(SOURCE_CODE) && EndsApart(LICENCE_FILE)
  {
  }

  lemma FrontIsNotText(f: string, text: string)
    requires BlankTail(f) == |f| > 1 && f[|f| - 1] == '.' && f[|f| - 2] == 'n'
    requires EndsApart(text)
    ensures !MitText(f, text)
  {
  }

  lemma FrontIsNotMit(line: string)
    requires CompactFront(line).Some?
    ensures !IsMit(CompactFront(line).value)
  {
    var f := CompactFront(line).value;
    CompactEnd(line);
    LicenceEnds();
    OtherEnds();
    FrontIsNotText(f, LICENCE);
    FrontIsNotText(f, LICENCE_STOP);
    FrontIsNotText(f, SPDX);
    FrontIsNotText(f, SOURCE_CODE);
    FrontIsNotText(f, LICENCE_FILE);
  }

  lemma HeaderNotices(line: string)
    ensures NoticeCoherent(HEADER, line)
  {
    if IsNotice(line) {
      TrimIsNotice(line);
      LicenceIsMit(line);
      KindExactly(LicenceLine(line));
      TrimNoConflict(line);
      LicenceNoConflict(line);
      NoticeIsNotCompact(line);
      StopIsNotCompact(LicenceLine(line), |LicenceLine(line)|);
    }
  }

  lemma HeaderCompacts(line: string)
    ensures CompactCoherent(HEADER, line)
  {
    if CompactFront(line).Some? {
      var f := CompactFront(line).value;
      FrontIsNotMit(line);
      KindExactly(f);
      CompactEnd(line);
      StopIsNotCompact(f, |f|);
    }
  }

  /** The patterns satisfy everything the rewriting relies on. */
  lemma HeaderCoherent()
    ensures Coherent(HEADER)
  {
    assert SPDX[|SPDX| - 1] == 'T';
    BlankTailAt(SPDX, |SPDX|);
    assert CompactFront(SPDX).None?;
    forall line {
      HeaderNotices(line);
    }
    forall line {
      HeaderCompacts(line);
    }
  }

  // ----- The comment as text -----

  predicate NotFeed(c: char) {
    c != '\n'
  }

  function FeedLines(s: string): seq<string>
    decreases |s|
  {
    if s == "" then []
    else
      var k := SkipWhile(s, 0, NotFeed);
      if k == |s| then [s] else [s[..k]] + FeedLines(s[k + 1..])
  }

  /** A comment line without its marker and one space after it. */
  function Unmarked(marker: string, line: string): string {
    Without(if |marker| <= |line| then line[|marker|..] else "", " ")
  }

  function Marked(marker: string, line: string): string {
    marker + if line == "" then "" else " " + line
  }

  function BodyOf(marker: string, lines: seq<string>): (r: seq<string>)
    ensures |r| == |lines|
    ensures forall i | 0 <= i < |r| :: r[i] == Unmarked(marker, lines[i])
  {
    seq(|lines|, i requires 0 <= i < |lines| => Unmarked(marker, lines[i]))
  }

  function Body(comment: string, marker: string): seq<string> {
    BodyOf(marker, FeedLines(comment))
  }

  function Render(lines: seq<string>, marker: string): string {
    if lines == [] then "" else Marked(marker, lines[0]) + "\n" + Render(lines[1..], marker)
  }

  /** The new comment, or why it is left to a human: a notice of the owner in no known form, or a foreign licence. */
  datatype Normalization = Text(comment: string) | Unrecognized | Conflicting

  function NormalizeComment(comment: string, marker: string): Normalization {
    match Normalized(HEADER, Body(comment, marker))
    case Unchanged => Text(comment)
    case Rewritten(lines) => Text(Render(lines, marker))
    case UnrecognizedNotice => Unrecognized
    case ConflictingLicence => Conflicting
  }

  predicate OneLine(s: string) {
    forall k | 0 <= k < |s| :: NotFeed(s[k])
  }

  predicate OneLineEach(lines: seq<string>) {
    forall l | l in lines :: OneLine(l)
  }

  lemma FeedLinesFirst(line: string, rest: string)
    requires OneLine(line)
    ensures FeedLines(line + "\n" + rest) == [line] + FeedLines(rest)
  {
    var s := line + "\n" + rest;
    assert s[|line|] == '\n';
    assert SkipWhile(s, 0, NotFeed) == |line|;
    assert s[..|line|] == line && s[|line| + 1..] == rest;
  }

  lemma {:induction false} FeedLinesOneLine(s: string)
    ensures OneLineEach(FeedLines(s))
    decreases |s|
  {
    if s != "" {
      var k := SkipWhile(s, 0, NotFeed);
      if k < |s| {
        FeedLinesOneLine(s[k + 1..]);
      }
    }
  }

  lemma UnmarkedMarked(marker: string, line: string)
    ensures Unmarked(marker, Marked(marker, line)) == line
  {
    assert Marked(marker, line)[|marker|..] == if line == "" then "" else " " + line;
  }

  lemma BodyOfCons(marker: string, first: string, rest: seq<string>)
    ensures BodyOf(marker, [first] + rest) == [Unmarked(marker, first)] + BodyOf(marker, rest)
  {
  }

  /** The first line of a rendered comment, and the comment after it. */
  lemma BodyFirst(marker: string, line: string, rest: string)
    requires OneLine(marker) && OneLine(line)
    ensures Body(Marked(marker, line) + "\n" + rest, marker) == [line] + Body(rest, marker)
  {
    var first := Marked(marker, line);
    FeedLinesFirst(first, rest);
    BodyOfCons(marker, first, FeedLines(rest));
    UnmarkedMarked(marker, line);
  }

  /** Reading a rendered comment gives back the lines it was rendered from. */
  lemma {:induction false} BodyRender(lines: seq<string>, marker: string)
    requires OneLine(marker) && OneLineEach(lines)
    ensures Body(Render(lines, marker), marker) == lines
  {
    if lines != [] {
      var line, rest := lines[0], lines[1..];
      assert line in lines && forall l | l in rest :: l in lines;
      BodyRender(rest, marker);
      BodyFirst(marker, line, Render(rest, marker));
      assert lines == [line] + rest;
    }
  }

  lemma BodyOneLine(comment: string, marker: string)
    ensures OneLineEach(Body(comment, marker))
  {
    FeedLinesOneLine(comment);
    var lines := FeedLines(comment);
    forall i | 0 <= i < |lines|
      ensures OneLine(Unmarked(marker, lines[i]))
    {
      assert OneLine(lines[i]);
    }
  }

  lemma UncompactOneLine(lines: seq<string>)
    requires OneLineEach(lines)
    ensures OneLineEach(Uncompact(HEADER, lines))
  {
    if lines != [] {
      assert OneLine(lines[|lines| - 1]);
      assert OneLine(SPDX);
    }
  }

  lemma PlainOneLine(s: string)
    requires Plain(s)
    ensures OneLine(s)
  {
  }

  lemma ExpandedOneLine(l: string, x: string)
    requires OneLine(l) && x in Expanded(HEADER, l)
    ensures OneLine(x)
  {
    if IsNotice(l) {
      TrimPlain(l);
      LicenceLinePlain(l);
      PlainOneLine(TrimNotice(l));
      PlainOneLine(LicenceLine(l));
      assert Expanded(HEADER, l) == [TrimNotice(l), LicenceLine(l)];
    } else {
      assert Expanded(HEADER, l) == [l];
    }
  }

  lemma NormalizedOneLine(lines: seq<string>)
    requires OneLineEach(lines) && Normalized(HEADER, lines).Rewritten?
    ensures OneLineEach(Normalized(HEADER, lines).lines)
  {
    var body := Uncompact(HEADER, lines);
    var kept := Kept(HEADER, body);
    UncompactOneLine(lines);
    forall x | x in Expand(HEADER, kept)
      ensures OneLine(x)
    {
      ExpandMembers(HEADER, kept, x);
      var l :| l in kept && x in Expanded(HEADER, l);
      KeptMembers(HEADER, body, l);
      ExpandedOneLine(l, x);
    }
  }

  /**
   Normalising a comment that was normalised returns it as it is, if and only if the last line
   that stays does not share its line with the licence identifier.
   */
  lemma CommentIdempotentExactly(comment: string, marker: string)
    requires OneLine(marker)
    ensures var body := Uncompact(HEADER, Body(comment, marker));
            Normalized(HEADER, Body(comment, marker)).Rewritten? ==>
              var out := NormalizeComment(comment, marker).comment;
              NormalizeComment(out, marker) == Text(out) <==> !IdentifierLast(HEADER, body)
  {
    var first := Normalized(HEADER, Body(comment, marker));
    if first.Rewritten? {
      HeaderCoherent();
      BodyOneLine(comment, marker);
      NormalizedOneLine(Body(comment, marker));
      BodyRender(first.lines, marker);
      IdempotentExactly(HEADER, Body(comment, marker));
      var again := Normalized(HEADER, first.lines);
      if again.Rewritten? {
        NormalizedOneLine(first.lines);
        BodyRender(again.lines, marker);
      }
    }
  }

  // ----- A comment whose second normalisation differs -----

  const FRONT := "Example " + CORPORATION
  const COMPACT := FRONT + " " + SPDX

  lemma NoticeAlone()
    ensures IsNotice(NOTICE) && TrimNotice(NOTICE) == NOTICE && LicenceLine(NOTICE) == LICENCE_STOP
  {
    assert NOTICE[0] == 'C';
    assert OccursAt(NOTICE, NOTICE, 0);
    assert NOTICE[..|NOTICE|] == NOTICE;
    assert PrefixEnd(NOTICE) == 0;
    assert NOTICE[..0] + LICENCE_STOP == LICENCE_STOP;
  }

  lemma CompactStart()
    ensures COMPACT[0] == 'E' && PrefixEnd(COMPACT) == 0 && TextStart(COMPACT) == 0
    ensures !IsMit(COMPACT) && !IsCopyright(COMPACT)
  {
    assert COMPACT[0] == 'E';
    if IsMit(COMPACT) {
      MitStart(COMPACT);
    }
    assert "portions"[0] == 'p' && "copyright"[0] == 'c';
    assert Lower(COMPACT[0 + 0]) == 'e';
  }

  lemma CompactSplits()
    ensures CompactFront(COMPACT) == Some(FRONT)
  {
    var e := |FRONT| + 1;
    assert |COMPACT| == e + |SPDX|;
    assert COMPACT[e..] == SPDX;
    assert OccursAt(COMPACT, SPDX, e);
    assert SPDX[|SPDX| - 1] == 'T';
    BlankTailAt(COMPACT, |COMPACT|);
    assert COMPACT[..e] == FRONT + " ";
    assert CORPORATION[|CORPORATION| - 1] == '.';
    assert FRONT[|FRONT| - 1] == '.';
    BlankTailAt(FRONT + " ", |FRONT|);
    assert COMPACT[..|FRONT|] == FRONT;
    assert FRONT[|FRONT| - |CORPORATION|..] == CORPORATION;
  }

  lemma FrontPlain()
    ensures Plain(FRONT + " ")
  {
    assert Plain("Example ") && Plain(CORPORATION) && Plain(" ");
  }

  lemma SpdxLetters()
    ensures forall k | 0 <= k < |SPDX| :: SPDX[k] == 'X' <==> k == 3
    ensures IDENTIFIER[3] == 'X' && SPDX[|IDENTIFIER|..] == " MIT"
  {
  }

  lemma CompactNoConflict()
    ensures !Conflicts(COMPACT)
  {
    CompactStart();
    FrontPlain();
    SpdxLetters();
    var e := |FRONT| + 1;
    assert COMPACT == (FRONT + " ") + SPDX;
    forall i | 0 <= i <= |COMPACT| - |IDENTIFIER| && OccursAt(COMPACT, IDENTIFIER, i)
      ensures Strip(COMPACT[i + |IDENTIFIER|..]) == "MIT"
    {
      assert COMPACT[i + 3] == 'X';
      assert COMPACT[i + |IDENTIFIER|..] == " MIT";
      StripBlankMit();
    }
    assert COMPACT[0..] == COMPACT;
    StripFirst(COMPACT);
    assert "licensed under "[0] == 'l';
    assert Lower(Strip(COMPACT)[0 + 0]) == 'e';
  }

  lemma StripBlankMit()
    ensures Strip(" MIT") == "MIT"
  {
    assert " MIT"[1..] == "MIT";
    StripClean("MIT");
  }

  lemma ResurfacingKinds()
    ensures KindOf(NOTICE).Notice? && KindOf(LICENCE_STOP).Mit?
    ensures !KindOf(COMPACT).Mit? && !KindOf(COMPACT).OtherCopyright?
    ensures CompactFront(LICENCE_STOP).None?
  {
    NoticeAlone();
    LicenceIsMit(NOTICE);
    KindExactly(LICENCE_STOP);
    CompactStart();
    KindExactly(COMPACT);
    StopIsNotCompact(LICENCE_STOP, |LICENCE_STOP|);
  }

  /** The compact line is split only once the licence line below it is gone. */
  lemma SecondPassDiffers()
    ensures Normalized(HEADER, [NOTICE, COMPACT, LICENCE_STOP]).Rewritten?
    ensures var out := Normalized(HEADER, [NOTICE, COMPACT, LICENCE_STOP]); Normalized(HEADER, out.lines) != out
  {
    ResurfacingKinds();
    NoticeAlone();
    TrimNoConflict(NOTICE);
    LicenceNoConflict(NOTICE);
    CompactNoConflict();
    CompactSplits();
    HeaderCoherent();
    CompactResurfaces(HEADER, NOTICE, COMPACT, LICENCE_STOP);
  }
}
