/**
 The backend-contract detector: three scans of the gateway's log lines that together must
 leave no `sub_status` value unread.
 */
module BackendContract {
  import opened Text

  const FIELD := "sub_status="

  const CONTRACT_CODES := {"42883", "42703", "42809", "3F000", "42601", "3D000"}

  // ----- What the patterns match at a position -----

  /** An occurrence of the field name with its equals sign, not inside a longer word. */
  predicate AnchorAt(s: string, i: int) {
    WordStart(s, i) && OccursAt(s, FIELD, i)
  }

  /** Where the value of a field starts, after an optional quote. */
  function ValueStart(s: string, i: nat): nat {
    var p := i + |FIELD|;
    if p < |s| && s[p] == '"' then p + 1 else p
  }

  /** The five characters of a value the scans can read, if the field has one. */
  predicate HasCode(s: string, i: nat) {
    var v := ValueStart(s, i);
    && AnchorAt(s, i)
    && v + 5 <= |s|
    && (forall k | v <= k < v + 5 :: IsAlnum(s[k]))
    && (v + 5 < |s| ==> !IsAlnum(s[v + 5]))
  }

  function CodeAt(s: string, i: nat): string
    requires HasCode(s, i)
  {
    s[ValueStart(s, i)..ValueStart(s, i) + 5]
  }

  predicate NotSpace(c: char) {
    !IsSpace(c)
  }

  /** The text between the equals sign and the next space. */
  function RawValue(s: string, i: nat): string
    requires i + |FIELD| <= |s|
  {
    s[i + |FIELD|..SkipWhile(s, i + |FIELD|, NotSpace)]
  }

  /** The token pattern's group: the value without one opening quote, unless nothing else is left. */
  function TokenAt(s: string, i: nat): string
    requires i + |FIELD| <= |s|
  {
    var raw := RawValue(s, i);
    if |raw| > 1 && raw[0] == '"' then raw[1..] else raw
  }

  predicate OnlyQuotes(t: string) {
    forall c | c in t :: c == '"'
  }

  // ----- Left-to-right scanning -----

  /** The start positions of non-overlapping matches; `width` is zero where nothing matches. */
  function FindAll(s: string, from: nat, width: (string, nat) -> nat): (r: seq<nat>)
    requires from <= |s|
    ensures forall k | 0 <= k < |r| :: from <= r[k] < |s| && width(s, r[k]) > 0
    ensures forall i, k | 0 <= i < k < |r| :: r[i] < r[k]
    decreases |s| - from
  {
    if from == |s| then []
    else
      var w := width(s, from);
      if w == 0 then FindAll(s, from + 1, width)
      else if from + w > |s| then [from]
      else [from] + FindAll(s, from + w, width)
  }

  /** No match starts inside another one. */
  ghost predicate Separate(s: string, width: (string, nat) -> nat) {
    forall i: nat, k: nat | i < k < |s| && k < i + width(s, i) :: width(s, k) == 0
  }

  /** Where the scan goes on after looking at a position. */
  function Next(s: string, from: nat, width: (string, nat) -> nat): (k: nat)
    ensures k > from
  {
    var w := width(s, from);
    if w == 0 then from + 1 else from + w
  }

  lemma FindAllStep(s: string, from: nat, width: (string, nat) -> nat, i: nat)
    requires from < i < |s|
    ensures var k := Next(s, from, width);
            i in FindAll(s, from, width) <==> k <= i && i in FindAll(s, k, width)
  {
    var k := Next(s, from, width);
    if k <= |s| {
      var rest := FindAll(s, k, width);
      assert FindAll(s, from, width) == rest || FindAll(s, from, width) == [from] + rest;
      assert i in rest ==> k <= i;
    }
  }

  /** Scanning without overlap misses nothing when matches never overlap. */
  lemma {:induction false} FindAllComplete(s: string, from: nat, width: (string, nat) -> nat, i: nat)
    requires Separate(s, width) && from <= i < |s|
    ensures i in FindAll(s, from, width) <==> width(s, i) > 0
    decreases |s| - from
  {
    if i > from {
      FindAllStep(s, from, width, i);
      var k := Next(s, from, width);
      if k <= i {
        FindAllComplete(s, k, width, i);
      }
    } else {
      FindAllFirst(s, from, width);
    }
  }

  lemma FindAllFirst(s: string, from: nat, width: (string, nat) -> nat)
    requires from < |s|
    ensures from in FindAll(s, from, width) <==> width(s, from) > 0
  {
    if width(s, from) > 0 {
      assert FindAll(s, from, width)[0] == from;
    }
  }

  function FieldWidth(s: string, i: nat): nat {
    if AnchorAt(s, i) then |FIELD| else 0
  }

  function CodeWidth(s: string, i: nat): nat {
    if HasCode(s, i) then ValueStart(s, i) + 5 - i else 0
  }

  lemma AnchorsApart(s: string, i: nat, k: nat)
    requires AnchorAt(s, i) && i < k < i + |FIELD|
    ensures !AnchorAt(s, k)
  {
    assert FIELD[10] == '=' && s[i + 10] == '=';
    assert FIELD[10 - (k - i)] != '=';
  }

  /** No field starts inside a value the scans can read, however closely fields follow each other. */
  lemma CodesApart(s: string, i: nat, k: nat)
    requires HasCode(s, i) && i < k < ValueStart(s, i) + 5
    ensures !AnchorAt(s, k)
  {
    var v := ValueStart(s, i);
    if k < i + |FIELD| {
      AnchorsApart(s, i, k);
    } else {
      assert FIELD[0] == 's' && FIELD[3] == '_';
      if k > v {
        assert IsAlnum(s[k - 1]);
      }
    }
  }

  lemma FieldsSeparate(s: string)
    ensures Separate(s, FieldWidth)
  {
    forall i: nat, k: nat | i < k < |s| && k < i + FieldWidth(s, i) ensures FieldWidth(s, k) == 0 {
      AnchorsApart(s, i, k);
    }
  }

  lemma CodesSeparate(s: string)
    ensures Separate(s, CodeWidth)
  {
    forall i: nat, k: nat | i < k < |s| && k < i + CodeWidth(s, i) ensures CodeWidth(s, k) == 0 {
      CodesApart(s, i, k);
    }
  }

  function Fields(s: string): seq<nat> {
    FindAll(s, 0, FieldWidth)
  }

  function Codes(s: string): seq<nat> {
    FindAll(s, 0, CodeWidth)
  }

  /** The anchor scan visits every field occurrence exactly once. */
  lemma FieldsExactly(s: string, i: nat)
    requires i < |s|
    ensures i in Fields(s) <==> AnchorAt(s, i)
    ensures forall a, b | 0 <= a < b < |Fields(s)| :: Fields(s)[a] != Fields(s)[b]
  {
    FieldsSeparate(s);
    FindAllComplete(s, 0, FieldWidth, i);
  }

  /** The value scan reads every value of the readable shape. */
  lemma CodesExactly(s: string, i: nat)
    requires i < |s|
    ensures i in Codes(s) <==> HasCode(s, i)
  {
    CodesSeparate(s);
    FindAllComplete(s, 0, CodeWidth, i);
  }

  // ----- The English message -----

  const MISSING := " does not exist"

  predicate IsNameChar(c: char) {
    IsAlnum(c) || c == '_' || c == '"' || c == '.'
  }

  predicate NotParen(c: char) {
    c != ')'
  }

  /** The message after a name, directly or after an argument list. */
  predicate MessageAt(s: string, c: nat) {
    || OccursAt(s, MISSING, c)
    || (&& c < |s| && s[c] == '('
        && var d := SkipWhile(s, c + 1, NotParen); d < |s| && OccursAt(s, MISSING, d + 1))
  }

  /** A named object of the given kind is reported missing at `i`. */
  predicate NamedMissingAt(s: string, i: nat, kind: string) {
    && OccursAt(s, kind, i)
    && var a := i + |kind|;
       var b := SkipWhile(s, a, IsSpace);
       var c := SkipWhile(s, b, IsNameChar);
       a < b < c && MessageAt(s, c)
  }

  predicate MissingObjectAt(s: string, i: nat) {
    && WordStart(s, i)
    && (NamedMissingAt(s, i, "function") || NamedMissingAt(s, i, "column") || NamedMissingAt(s, i, "schema")
        || OccursAt(s, "operator does not exist", i))
  }

  predicate MissingObject(s: string) {
    exists i: nat | i < |s| :: MissingObjectAt(s, i)
  }

  predicate AllIn(s: string, lo: nat, hi: nat, p: char -> bool) {
    lo <= hi <= |s| && forall k | lo <= k < hi :: p(s[k])
  }

  /**
   The pattern's own reading: the kind up to `a`, spaces up to `b`, a name up to `c`, and then
   the message, directly or after a parenthesised argument list that closes at `d`.
   */
  ghost predicate NamedMissingSpan(s: string, i: nat, kind: string, b: nat, c: nat, d: nat) {
    && OccursAt(s, kind, i)
    && i + |kind| < b < c
    && AllIn(s, i + |kind|, b, IsSpace) && AllIn(s, b, c, IsNameChar)
    && (|| OccursAt(s, MISSING, c)
        || (&& c < d < |s| && s[c] == '(' && AllIn(s, c + 1, d, NotParen) && s[d] == ')'
            && OccursAt(s, MISSING, d + 1)))
  }

  lemma SkipWhileUnique(s: string, i: nat, p: char -> bool, e: nat)
    requires AllIn(s, i, e, p) && (e < |s| ==> !p(s[e]))
    ensures SkipWhile(s, i, p) == e
  {
  }

  lemma MatchHasSpan(s: string, i: nat, kind: string) returns (b: nat, c: nat, d: nat)
    requires NamedMissingAt(s, i, kind)
    ensures NamedMissingSpan(s, i, kind, b, c, d)
  {
    b := SkipWhile(s, i + |kind|, IsSpace);
    c := SkipWhile(s, b, IsNameChar);
    d := SkipWhile(s, c + 1, NotParen);
  }

  /** The greedy matcher accepts exactly what the pattern can match in any way. */
  lemma NamedMissingExactly(s: string, i: nat, kind: string)
    ensures NamedMissingAt(s, i, kind) <==> exists b, c, d :: NamedMissingSpan(s, i, kind, b, c, d)
  {
    if NamedMissingAt(s, i, kind) {
      var b, c, d := MatchHasSpan(s, i, kind);
    }
    forall b, c, d | NamedMissingSpan(s, i, kind, b, c, d) ensures NamedMissingAt(s, i, kind) {
      SpanMatches(s, i, kind, b, c, d);
    }
  }

  lemma MessageFollows(s: string, c: nat, d: nat)
    requires || OccursAt(s, MISSING, c)
             || (&& c < d < |s| && s[c] == '(' && AllIn(s, c + 1, d, NotParen) && s[d] == ')'
                 && OccursAt(s, MISSING, d + 1))
    ensures MessageAt(s, c)
  {
    if !OccursAt(s, MISSING, c) {
      SkipWhileUnique(s, c + 1, NotParen, d);
    }
  }

  lemma SpanMatches(s: string, i: nat, kind: string, b: nat, c: nat, d: nat)
    requires NamedMissingSpan(s, i, kind, b, c, d)
    ensures NamedMissingAt(s, i, kind)
  {
    var a := i + |kind|;
    assert IsNameChar(s[b]);
    SkipWhileUnique(s, a, IsSpace, b);
    NameEnds(s, b, c);
    MessageFollows(s, c, d);
  }

  lemma NameEnds(s: string, b: nat, c: nat)
    requires AllIn(s, b, c, IsNameChar) && (OccursAt(s, MISSING, c) || (c < |s| && s[c] == '('))
    ensures SkipWhile(s, b, IsNameChar) == c
  {
    if OccursAt(s, MISSING, c) {
      assert s[c + 0] == MISSING[0];
    }
    SkipWhileUnique(s, b, IsNameChar, c);
  }

  /** The benign notice of a conditional drop. */
  predicate IsSkippingNotice(s: string) {
    Contains(s, "does not exist, skipping")
  }

  // ----- Lines without colour -----

  const ESC := '\U{1b}'

  predicate IsSgrChar(c: char) {
    '0' <= c <= '9' || c == ';'
  }

  predicate IsLetter(c: char) {
    'A' <= c <= 'Z' || 'a' <= c <= 'z'
  }

  /** The length of a colour sequence at the start of the text, or zero. */
  function AnsiLength(s: string): (n: nat)
    ensures n <= |s|
  {
    if |s| >= 2 && s[0] == ESC && s[1] == '[' then
      var e := SkipWhile(s, 2, IsSgrChar);
      if e < |s| && IsLetter(s[e]) then e + 1 else 0
    else 0
  }

  function StripAnsi(s: string): string
    decreases |s|
  {
    if s == "" then ""
    else
      var n := AnsiLength(s);
      if n > 0 then StripAnsi(s[n..]) else [s[0]] + StripAnsi(s[1..])
  }

  predicate IsBreak(c: char) {
    '\n' <= c <= '\r' || ('\U{1c}' <= c <= '\U{1e}') || c == '\U{85}' || c == '\U{2028}' || c == '\U{2029}'
  }

  predicate NotBreak(c: char) {
    !IsBreak(c)
  }

  /** The text after a line that ends at `k`; a carriage return and a line feed are one break. */
  function AfterBreak(s: string, k: nat): string
    requires k < |s|
  {
    if s[k] == '\r' && k + 1 < |s| && s[k + 1] == '\n' then s[k + 2..] else s[k + 1..]
  }

  function SplitLines(s: string): seq<string>
    decreases |s|
  {
    if s == "" then []
    else
      var k := SkipWhile(s, 0, NotBreak);
      if k == |s| then [s] else [s[..k]] + SplitLines(AfterBreak(s, k))
  }

  /** The lines the scans see. */
  function LogLines(logs: string): (lines: seq<string>)
    ensures |lines| == |SplitLines(logs)|
    ensures forall i | 0 <= i < |lines| :: lines[i] == StripAnsi(SplitLines(logs)[i])
  {
    var raw := SplitLines(logs);
    seq(|raw|, i requires 0 <= i < |raw| => StripAnsi(raw[i]))
  }

  // ----- The three scans -----

  predicate HasContractCode(s: string) {
    exists i: nat | i < |s| :: HasCode(s, i) && CodeAt(s, i) in CONTRACT_CODES
  }

  predicate MissingError(s: string) {
    MissingObject(s) && !IsSkippingNotice(s)
  }

  /** A value that is neither empty nor only quotes, in a shape the value scan cannot read. */
  predicate Unparseable(s: string, i: nat) {
    AnchorAt(s, i) && !OnlyQuotes(TokenAt(s, i)) && !HasCode(s, i)
  }

  predicate ContractError(s: string) {
    HasContractCode(s) || MissingError(s)
  }

  /** The lines with a property, in order and as often as they occur. */
  function Filtered(lines: seq<string>, p: string -> bool): (r: seq<string>)
    ensures forall l :: l in r <==> l in lines && p(l)
  {
    if lines == [] then [] else (if p(lines[0]) then [lines[0]] else []) + Filtered(lines[1..], p)
  }

  lemma {:induction false} FilteredSnoc(lines: seq<string>, l: string, p: string -> bool)
    ensures Filtered(lines + [l], p) == Filtered(lines, p) + if p(l) then [l] else []
  {
    if lines != [] {
      FilteredSnoc(lines[1..], l, p);
      assert (lines + [l])[1..] == lines[1..] + [l];
    }
  }

  /** As often as they occur: no repeated line is collapsed. */
  lemma {:induction false} FilteredCounts(lines: seq<string>, p: string -> bool, l: string)
    ensures multiset(Filtered(lines, p))[l] == if p(l) then multiset(lines)[l] else 0
  {
    if lines != [] {
      assert lines == [lines[0]] + lines[1..];
      FilteredCounts(lines[1..], p, l);
    }
  }

  method Matching(lines: seq<string>, p: string -> bool) returns (matches: seq<string>)
    ensures matches == Filtered(lines, p)
  {
    matches := [];
    for k := 0 to |lines|
      invariant matches == Filtered(lines[..k], p)
    {
      assert lines[..k + 1] == lines[..k] + [lines[k]];
      FilteredSnoc(lines[..k], lines[k], p);
      if p(lines[k]) {
        matches := matches + [lines[k]];
      }
    }
    assert lines[..|lines|] == lines;
  }

  /** The offending lines, in the order of the log and as often as they occur. */
  method FindBackendContractErrors(logs: string) returns (matches: seq<string>)
    ensures matches == Filtered(LogLines(logs), ContractError)
    ensures forall l :: l in matches <==> l in LogLines(logs) && ContractError(l)
  {
    matches := Matching(LogLines(logs), ContractError);
  }

  ghost predicate ReadsUnexpected(s: string, code: string) {
    code !in CONTRACT_CODES && exists i: nat | i < |s| :: HasCode(s, i) && CodeAt(s, i) == code
  }

  /** The codes of one line outside the contract class, found by the non-overlapping value scan. */
  method UnexpectedIn(line: string) returns (found: seq<string>)
    ensures forall c :: c in found <==> ReadsUnexpected(line, c)
  {
    found := [];
    var at := Codes(line);
    for k := 0 to |at|
      invariant forall c :: c in found <==> c !in CONTRACT_CODES && exists j | 0 <= j < k :: CodeAt(line, at[j]) == c
    {
      var code := CodeAt(line, at[k]);
      if code !in CONTRACT_CODES {
        found := found + [code];
      }
    }
    forall c | ReadsUnexpected(line, c) ensures c in found {
      var i: nat :| i < |line| && HasCode(line, i) && CodeAt(line, i) == c;
      CodesExactly(line, i);
      var j :| 0 <= j < |at| && at[j] == i;
    }
  }

  ghost predicate ShowsUnparseable(s: string, token: string) {
    exists i: nat | i < |s| :: Unparseable(s, i) && TokenAt(s, i) == token
  }

  /** The value at a position, when the value scan cannot read it. */
  function UnreadableAt(line: string): nat -> seq<string> {
    (i: nat) => if Unparseable(line, i) then [TokenAt(line, i)] else []
  }

  lemma UnreadableExactly(line: string, t: string, i: nat)
    ensures t in UnreadableAt(line)(i) <==> Unparseable(line, i) && TokenAt(line, i) == t
  {
  }

  lemma UnreadableShown(line: string, t: string, i: nat)
    requires i in Fields(line) && t in UnreadableAt(line)(i)
    ensures ShowsUnparseable(line, t)
  {
    UnreadableExactly(line, t, i);
  }

  lemma ShownUnreadable(line: string, t: string) returns (i: nat)
    requires ShowsUnparseable(line, t)
    ensures i in Fields(line) && t in UnreadableAt(line)(i)
  {
    i :| i < |line| && Unparseable(line, i) && TokenAt(line, i) == t;
    FieldsExactly(line, i);
    UnreadableExactly(line, t, i);
  }

  lemma UnreadableMembers(line: string, t: string)
    ensures t in FlatMap(Fields(line), UnreadableAt(line)) <==> ShowsUnparseable(line, t)
  {
    var at, f := Fields(line), UnreadableAt(line);
    FlatMapMembers(at, f, t);
    if ShowsUnparseable(line, t) {
      var i := ShownUnreadable(line, t);
      assert t in f(i);
    }
    if t in FlatMap(at, f) {
      var i :| i in at && t in f(i);
      UnreadableShown(line, t, i);
    }
  }

  method Gather(at: seq<nat>, f: nat -> seq<string>) returns (found: seq<string>)
    ensures found == FlatMap(at, f)
  {
    found := [];
    for k := 0 to |at|
      invariant found == FlatMap(at[..k], f)
    {
      assert at[..k + 1] == at[..k] + [at[k]];
      FlatMapSnoc(at[..k], at[k], f);
      found := found + f(at[k]);
    }
    assert at[..|at|] == at;
  }

  /** The unreadable values of one line, one look at every field occurrence. */
  method UnparseableIn(line: string) returns (found: seq<string>)
    ensures forall t :: t in found <==> ShowsUnparseable(line, t)
  {
    found := Gather(Fields(line), UnreadableAt(line));
    forall t {
      UnreadableMembers(line, t);
    }
  }

  method FindUnexpectedSqlstates(lines: seq<string>) returns (codes: seq<string>)
    ensures Ascending(codes)
    ensures forall c :: c in codes <==> exists k | 0 <= k < |lines| :: ReadsUnexpected(lines[k], c)
  {
    var seen: seq<string> := [];
    for k := 0 to |lines|
      invariant forall c :: c in seen <==> exists j | 0 <= j < k :: ReadsUnexpected(lines[j], c)
    {
      var found := UnexpectedIn(lines[k]);
      seen := seen + found;
    }
    codes := SortedDistinct(seen);
    assert forall c :: c in codes <==> c in Elements(codes);
    assert forall c :: c in seen <==> c in Elements(seen);
  }

  method FindUnparseableSubStatusValues(lines: seq<string>) returns (values: seq<string>)
    ensures Ascending(values)
    ensures forall t :: t in values <==> exists k | 0 <= k < |lines| :: ShowsUnparseable(lines[k], t)
  {
    var seen: seq<string> := [];
    for k := 0 to |lines|
      invariant forall t :: t in seen <==> exists j | 0 <= j < k :: ShowsUnparseable(lines[j], t)
    {
      var found := UnparseableIn(lines[k]);
      seen := seen + found;
    }
    values := SortedDistinct(seen);
    assert forall t :: t in values <==> t in Elements(values);
    assert forall t :: t in seen <==> t in Elements(seen);
  }

  // ----- The verdict -----

  /** Every field of the line has an empty value, or nothing but quotes. */
  predicate AllEmpty(s: string) {
    forall i: nat | i < |s| && AnchorAt(s, i) :: OnlyQuotes(RawValue(s, i))
  }

  predicate CleanLine(s: string) {
    !MissingError(s) && AllEmpty(s)
  }

  lemma TokenOnlyQuotes(s: string, i: nat)
    requires AnchorAt(s, i)
    ensures OnlyQuotes(TokenAt(s, i)) <==> OnlyQuotes(RawValue(s, i))
  {
    var raw := RawValue(s, i);
    if |raw| > 1 && raw[0] == '"' {
      assert forall c :: c in raw <==> c == raw[0] || c in raw[1..];
    }
  }

  lemma CodeIsValue(s: string, i: nat)
    requires HasCode(s, i)
    ensures !OnlyQuotes(RawValue(s, i))
  {
    var p, v := i + |FIELD|, ValueStart(s, i);
    var e := SkipWhile(s, p, NotSpace);
    assert IsAlnum(s[v]);
    assert NotSpace(s[p]) && NotSpace(s[v]);
    assert RawValue(s, i)[v - p] == s[v];
    assert s[v] in RawValue(s, i);
  }

  /**
   The three scans leave no blind spot: they are all silent about a line exactly when it has
   no missing-object error and none of its fields carries a value.
   */
  lemma NoBlindSpot(s: string)
    ensures !ContractError(s) && (forall c :: !ReadsUnexpected(s, c)) && (forall t :: !ShowsUnparseable(s, t))
            <==> CleanLine(s)
  {
    forall i: nat | i < |s| && AnchorAt(s, i)
      ensures OnlyQuotes(RawValue(s, i)) <==> !HasCode(s, i) && !Unparseable(s, i)
    {
      TokenOnlyQuotes(s, i);
      if HasCode(s, i) {
        CodeIsValue(s, i);
      }
    }
    forall i: nat | i < |s| && HasCode(s, i) ensures HasContractCode(s) || ReadsUnexpected(s, CodeAt(s, i)) {
    }
    forall i: nat | i < |s| && Unparseable(s, i) ensures ShowsUnparseable(s, TokenAt(s, i)) {
    }
  }

  lemma SilentScans(lines: seq<string>, error: string -> bool, carries: (string, string) -> bool,
                    shows: (string, string) -> bool, clean: string -> bool,
                    matches: seq<string>, unexpected: seq<string>, unparseable: seq<string>)
    requires forall l :: l in matches <==> l in lines && error(l)
    requires forall c :: c in unexpected <==> exists k | 0 <= k < |lines| :: carries(lines[k], c)
    requires forall t :: t in unparseable <==> exists k | 0 <= k < |lines| :: shows(lines[k], t)
    requires forall l | l in lines :: !error(l) && (forall c :: !carries(l, c)) && (forall t :: !shows(l, t)) <==> clean(l)
    ensures matches == [] <==> forall l | l in lines :: !error(l)
    ensures matches == [] && unexpected == [] && unparseable == [] <==> forall l | l in lines :: clean(l)
  {
    if matches != [] {
      assert matches[0] in matches;
    }
    NoneFound(lines, carries, unexpected);
    NoneFound(lines, shows, unparseable);
    if matches == [] && unexpected == [] && unparseable == [] {
      forall l | l in lines ensures clean(l) {
        assert l !in matches;
      }
    }
  }

  lemma NoneFound(lines: seq<string>, carries: (string, string) -> bool, found: seq<string>)
    requires forall c :: c in found <==> exists k | 0 <= k < |lines| :: carries(lines[k], c)
    ensures found == [] <==> forall l, c | l in lines :: !carries(l, c)
  {
    if found != [] {
      assert found[0] in found;
      var k :| 0 <= k < |lines| && carries(lines[k], found[0]);
      assert lines[k] in lines;
    } else {
      forall l, c | l in lines ensures !carries(l, c) {
        assert c !in found;
        var k :| 0 <= k < |lines| && lines[k] == l;
      }
    }
  }

  /** The three scans together find nothing exactly on clean lines. */
  lemma ScansDecide(lines: seq<string>, matches: seq<string>, unexpected: seq<string>, unparseable: seq<string>)
    requires forall l :: l in matches <==> l in lines && ContractError(l)
    requires forall c :: c in unexpected <==> exists k | 0 <= k < |lines| :: ReadsUnexpected(lines[k], c)
    requires forall t :: t in unparseable <==> exists k | 0 <= k < |lines| :: ShowsUnparseable(lines[k], t)
    ensures matches == [] <==> forall l | l in lines :: !ContractError(l)
    ensures matches == [] && unexpected == [] && unparseable == [] <==> forall l | l in lines :: CleanLine(l)
  {
    forall l | l in lines
      ensures !ContractError(l) && (forall c :: !ReadsUnexpected(l, c)) && (forall t :: !ShowsUnparseable(l, t))
              <==> CleanLine(l)
    {
      NoBlindSpot(l);
    }
    SilentScans(lines, ContractError, ReadsUnexpected, ShowsUnparseable, CleanLine, matches, unexpected, unparseable);
  }

  /** The command's verdict; the two report scans count only in strict mode. */
  method Gate(logs: string, strict: bool) returns (code: int)
    ensures code == 0 || code == 1
    ensures !strict ==> (code == 0 <==> forall l | l in LogLines(logs) :: !ContractError(l))
    ensures strict ==> (code == 0 <==> forall l | l in LogLines(logs) :: CleanLine(l))
  {
    var lines := LogLines(logs);
    var matches := FindBackendContractErrors(logs);
    var unexpected := FindUnexpectedSqlstates(lines);
    var unparseable := FindUnparseableSubStatusValues(lines);
    var failed := matches != [];
    if strict && unexpected != [] {
      failed := true;
    }
    if strict && unparseable != [] {
      failed := true;
    }
    code := if failed then 1 else 0;
    ScansDecide(lines, matches, unexpected, unparseable);
  }

  // ----- The canary's count -----

  /** The number of fields from a position on. */
  function CountFrom(s: string, i: nat): nat
    decreases |s| - i
  {
    if i >= |s| then 0 else (if AnchorAt(s, i) then 1 else 0) + CountFrom(s, i + 1)
  }

  lemma {:induction false} ScanCounts(s: string, from: nat)
    requires from <= |s|
    ensures |FindAll(s, from, FieldWidth)| == CountFrom(s, from)
    decreases |s| - from
  {
    if from < |s| {
      var w := FieldWidth(s, from);
      if w == 0 {
        ScanCounts(s, from + 1);
      } else {
        ScanCounts(s, from + w);
        NoneInside(s, from, 1);
      }
    }
  }

  lemma {:induction false} NoneInside(s: string, i: nat, d: nat)
    requires AnchorAt(s, i) && 1 <= d <= |FIELD|
    ensures CountFrom(s, i + d) == CountFrom(s, i + |FIELD|)
    decreases |FIELD| - d
  {
    if d < |FIELD| {
      AnchorsApart(s, i, i + d);
      NoneInside(s, i, d + 1);
    }
  }

  lemma AnchorBeforeBreak(a: string, c: char, b: string, i: nat)
    requires IsBreak(c) && i <= |a|
    ensures AnchorAt(a + [c] + b, i) <==> AnchorAt(a, i)
  {
    var s := a + [c] + b;
    assert s[|a|] == c;
    forall k | 0 <= k < |FIELD| ensures !IsBreak(FIELD[k]) {
    }
    if i + |FIELD| > |a| {
      assert !IsBreak(FIELD[if i <= |a| < i + |FIELD| then |a| - i else 0]);
    }
  }

  lemma AnchorAfterBreak(a: string, c: char, b: string, i: nat)
    requires IsBreak(c)
    ensures AnchorAt(a + [c] + b, |a| + 1 + i) <==> AnchorAt(b, i)
  {
    var s := a + [c] + b;
    assert s[|a|] == c && s[|a| + 1..] == b;
  }

  lemma {:induction false} CountAfterBreak(a: string, c: char, b: string, i: nat)
    requires IsBreak(c)
    ensures CountFrom(a + [c] + b, |a| + 1 + i) == CountFrom(b, i)
    decreases |b| - i
  {
    if i < |b| {
      AnchorAfterBreak(a, c, b, i);
      CountAfterBreak(a, c, b, i + 1);
    }
  }

  lemma {:induction false} CountAtBreak(a: string, c: char, b: string, i: nat)
    requires IsBreak(c) && i <= |a|
    ensures CountFrom(a + [c] + b, i) == CountFrom(a, i) + CountFrom(b, 0)
    decreases |a| - i
  {
    AnchorBeforeBreak(a, c, b, i);
    if i < |a| {
      CountAtBreak(a, c, b, i + 1);
    } else {
      CountAfterBreak(a, c, b, 0);
    }
  }

  lemma AnsiBeforeBreak(a: string, c: char, b: string)
    requires IsBreak(c) && a != ""
    ensures AnsiLength(a + [c] + b) == AnsiLength(a)
  {
    var s := a + [c] + b;
    assert s[|a|] == c;
    if |a| >= 2 {
      var e := SkipWhile(a, 2, IsSgrChar);
      assert forall k | 0 <= k < |a| :: s[k] == a[k];
      SkipWhileUnique(s, 2, IsSgrChar, e);
    }
  }

  lemma TailAtBreak(a: string, c: char, b: string, d: nat)
    requires d <= |a|
    ensures (a + [c] + b)[d..] == a[d..] + [c] + b && (a != "" ==> (a + [c] + b)[0] == a[0])
  {
  }

  /** The first step: a colour sequence goes, any other character stays. */
  lemma StripAnsiFirst(s: string, d: nat, rest: string)
    requires s != "" && d == (if AnsiLength(s) > 0 then AnsiLength(s) else 1) && s[d..] == rest
    ensures StripAnsi(s) == (if AnsiLength(s) > 0 then "" else [s[0]]) + StripAnsi(rest)
  {
  }

  /** Removing colour commutes with splitting at a line break. */
  lemma {:induction false} StripAnsiAtBreak(a: string, c: char, b: string)
    requires IsBreak(c)
    ensures StripAnsi(a + [c] + b) == StripAnsi(a) + [c] + StripAnsi(b)
    decreases |a|
  {
    if a == "" {
      var s := a + [c] + b;
      assert s == [c] + b && s[1..] == b;
    } else {
      var n := AnsiLength(a);
      var d := if n > 0 then n else 1;
      StripAnsiAtBreak(a[d..], c, b);
      AnsiBeforeBreak(a, c, b);
      TailAtBreak(a, c, b, d);
      StripAnsiFirst(a, d, a[d..]);
      StripAnsiFirst(a + [c] + b, d, a[d..] + [c] + b);
      var first := if n > 0 then "" else [a[0]];
      Text.Regroup(first, StripAnsi(a[d..]), [c]);
      Text.Regroup(first, StripAnsi(a[d..]) + [c], StripAnsi(b));
    }
  }

  function CountFields(s: string): nat {
    |Fields(StripAnsi(s))|
  }

  lemma CountFieldsAtBreak(a: string, c: char, b: string)
    requires IsBreak(c)
    ensures CountFields(a + [c] + b) == CountFields(a) + CountFields(b)
  {
    var x, y := StripAnsi(a), StripAnsi(b);
    StripAnsiAtBreak(a, c, b);
    ScanCounts(x, 0);
    ScanCounts(y, 0);
    ScanCounts(x + [c] + y, 0);
    CountAtBreak(x, c, y, 0);
  }

  function TotalFields(lines: seq<string>): nat {
    if lines == [] then 0 else CountFields(lines[0]) + TotalFields(lines[1..])
  }

  /** The canary counts in the whole log exactly the occurrences the scans visit line by line. */
  lemma {:induction false} CountAgreesWithScans(logs: string)
    ensures CountFields(logs) == TotalFields(SplitLines(logs))
    decreases |logs|
  {
    if logs != "" {
      var k := SkipWhile(logs, 0, NotBreak);
      if k == |logs| {
        assert SplitLines(logs) == [logs];
      } else {
        var line, rest := logs[..k], logs[k + 1..];
        var after := AfterBreak(logs, k);
        assert logs == line + [logs[k]] + rest;
        CountFieldsAtBreak(line, logs[k], rest);
        if after != rest {
          assert rest == "" + ['\n'] + after;
          CountFieldsAtBreak("", '\n', after);
          assert CountFields("") == 0;
        }
        CountAgreesWithScans(after);
        assert ([line] + SplitLines(after))[1..] == SplitLines(after);
      }
    }
  }
}
