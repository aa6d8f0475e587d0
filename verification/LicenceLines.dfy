/**
 Normalising the licence lines of a comment: Microsoft notices get the standard licence line
 under them, older licence lines that belong to them disappear, and nothing else moves.  The
 text of the lines enters only through a classifier.
 */
module LicenceLines {
  import opened Options
  import opened Text

  /** What a line is: a standard notice, another copyright line, a licence line, or something else. */
  datatype Kind = Notice | OwnCopyright | OtherCopyright | Mit | Filler | Prose

  datatype Rules = Rules(
    kind: string -> Kind,
    trim: string -> string,              // a notice without its trailing remark
    licence: string -> string,           // the licence line that goes under a notice
    conflict: string -> bool,            // a licence declaration that needs manual review
    compact: string -> Option<string>    // the front of a line that shares the licence identifier
  )

  const SPDX := "SPDX-License-Identifier: MIT"

  datatype Outcome =
    | Unchanged                          // no notice of the owner: the comment is returned as it is
    | Rewritten(lines: seq<string>)
    | UnrecognizedNotice
    | ConflictingLicence

  /** A compact last line becomes two lines. */
  function Uncompact(r: Rules, lines: seq<string>): seq<string> {
    if lines == [] then []
    else
      var n := |lines| - 1;
      match r.compact(lines[n])
      case None => lines
      case Some(front) => lines[..n] + [front, SPDX]
  }

  function WithoutMit(r: Rules, lines: seq<string>): seq<string> {
    if lines == [] then []
    else (if r.kind(lines[0]).Mit? then [] else [lines[0]]) + WithoutMit(r, lines[1..])
  }

  /** Whether a licence line here would belong to the owner's notice, after one more line. */
  function Owned(k: Kind, before: bool): bool {
    match k
    case Notice | OwnCopyright => true
    case OtherCopyright | Prose => false
    case Mit | Filler => before
  }

  /** Drops the licence lines that belong to the owner's notices. */
  function WithoutOwned(r: Rules, lines: seq<string>, owned: bool): seq<string> {
    if lines == [] then []
    else
      var k := r.kind(lines[0]);
      (if k.Mit? && owned then [] else [lines[0]]) + WithoutOwned(r, lines[1..], Owned(k, owned))
  }

  predicate Mixed(r: Rules, lines: seq<string>) {
    exists l | l in lines :: r.kind(l).OtherCopyright?
  }

  function Kept(r: Rules, lines: seq<string>): seq<string> {
    if Mixed(r, lines) then WithoutOwned(r, lines, false) else WithoutMit(r, lines)
  }

  function TrimLine(r: Rules, l: string): string {
    if r.kind(l).Notice? then r.trim(l) else l
  }

  function Expanded(r: Rules, l: string): seq<string> {
    if r.kind(l).Notice? then [r.trim(l), r.licence(l)] else [l]
  }

  /** Puts the standard licence line under every notice. */
  function Expand(r: Rules, lines: seq<string>): seq<string> {
    if lines == [] then [] else Expanded(r, lines[0]) + Expand(r, lines[1..])
  }

  function Trim(r: Rules, lines: seq<string>): seq<string> {
    if lines == [] then [] else [TrimLine(r, lines[0])] + Trim(r, lines[1..])
  }

  predicate HasNotice(r: Rules, lines: seq<string>) {
    exists l | l in lines :: r.kind(l).Notice?
  }

  function Normalized(r: Rules, lines: seq<string>): Outcome {
    var body := Uncompact(r, lines);
    if !HasNotice(r, body) then
      if exists l | l in body :: r.kind(l).OwnCopyright? then UnrecognizedNotice else Unchanged
    else if exists l | l in body :: r.conflict(l) then ConflictingLicence
    else Rewritten(Expand(r, Kept(r, body)))
  }

  /** What the patterns guarantee about the lines the tool writes itself. */
  ghost predicate Coherent(r: Rules) {
    && r.compact(SPDX).None?
    && (forall l :: NoticeCoherent(r, l))
    && (forall l :: CompactCoherent(r, l))
  }

  ghost predicate NoticeCoherent(r: Rules, l: string) {
    r.kind(l).Notice? ==>
      && r.kind(r.trim(l)).Notice? && r.trim(r.trim(l)) == r.trim(l) && r.licence(r.trim(l)) == r.licence(l)
      && r.kind(r.licence(l)).Mit?
      && !r.conflict(r.trim(l)) && !r.conflict(r.licence(l))
      && r.compact(l).None? && r.compact(r.licence(l)).None?
  }

  ghost predicate CompactCoherent(r: Rules, l: string) {
    r.compact(l).Some? ==> !r.kind(r.compact(l).value).Mit? && r.compact(r.compact(l).value).None?
  }

  // ----- The state machine over the lines -----

  lemma WithoutOwnedStep(r: Rules, lines: seq<string>, i: nat, owned: bool)
    requires i < |lines|
    ensures var k := r.kind(lines[i]);
            WithoutOwned(r, lines[i..], owned) ==
            (if k.Mit? && owned then [] else [lines[i]]) + WithoutOwned(r, lines[i + 1..], Owned(k, owned))
  {
    assert lines[i..][1..] == lines[i + 1..];
  }

  /** The mixed-owner loop, line by line. */
  method DropOwned(r: Rules, lines: seq<string>) returns (kept: seq<string>)
    ensures kept == WithoutOwned(r, lines, false)
  {
    kept := [];
    var owned := false;
    ghost var all := WithoutOwned(r, lines, false);
    assert lines[0..] == lines;
    assert [] + all == all;
    for i := 0 to |lines|
      invariant all == kept + WithoutOwned(r, lines[i..], owned)
    {
      var l := lines[i];
      var k := r.kind(l);
      WithoutOwnedStep(r, lines, i, owned);
      Regroup(kept, if k.Mit? && owned then [] else [l], WithoutOwned(r, lines[i + 1..], Owned(k, owned)));
      if k.Mit? && owned {
        assert kept + [] == kept;
      } else {
        kept := kept + [l];
      }
      if k.Notice? || k.OwnCopyright? || k.OtherCopyright? {
        owned := !k.OtherCopyright?;
      } else if k.Prose? {
        owned := false;
      }
    }
  }

  /** Line `i` follows a copyright line of the owner with only licence and filler lines between. */
  ghost predicate BelongsToOwner(r: Rules, lines: seq<string>, i: nat)
    requires i <= |lines|
  {
    exists j | 0 <= j < i :: UnderOwner(r, lines, j, i)
  }

  ghost predicate UnderOwner(r: Rules, lines: seq<string>, j: nat, i: nat)
    requires j < i <= |lines|
  {
    && (r.kind(lines[j]).Notice? || r.kind(lines[j]).OwnCopyright?)
    && forall k | j < k < i :: r.kind(lines[k]).Mit? || r.kind(lines[k]).Filler?
  }

  /** Which lines disappear: licence lines, and only the owner's where other owners are present. */
  ghost predicate Dropped(r: Rules, lines: seq<string>, i: nat)
    requires i < |lines|
  {
    r.kind(lines[i]).Mit? && (Mixed(r, lines) ==> BelongsToOwner(r, lines, i))
  }

  /** The lines before position `n` that do not disappear, in order. */
  ghost function KeptLines(r: Rules, lines: seq<string>, n: nat): seq<string>
    requires n <= |lines|
  {
    if n == 0 then []
    else KeptLines(r, lines, n - 1) + if Dropped(r, lines, n - 1) then [] else [lines[n - 1]]
  }

  lemma OwnedExactly(r: Rules, lines: seq<string>, i: nat)
    requires i < |lines|
    ensures BelongsToOwner(r, lines, i + 1) <==> Owned(r.kind(lines[i]), BelongsToOwner(r, lines, i))
  {
    var k := r.kind(lines[i]);
    if k.Notice? || k.OwnCopyright? {
      assert UnderOwner(r, lines, i, i + 1);
    }
    if BelongsToOwner(r, lines, i) && (k.Mit? || k.Filler?) {
      var j :| 0 <= j < i && UnderOwner(r, lines, j, i);
      assert UnderOwner(r, lines, j, i + 1);
    }
    if BelongsToOwner(r, lines, i + 1) && !(k.Notice? || k.OwnCopyright?) {
      var j :| 0 <= j < i + 1 && UnderOwner(r, lines, j, i + 1);
      assert UnderOwner(r, lines, j, i);
    }
  }

  lemma {:induction false} WithoutOwnedFrom(r: Rules, lines: seq<string>, i: nat)
    requires i <= |lines| && Mixed(r, lines)
    ensures KeptLines(r, lines, |lines|) ==
            KeptLines(r, lines, i) + WithoutOwned(r, lines[i..], BelongsToOwner(r, lines, i))
    decreases |lines| - i
  {
    if i < |lines| {
      WithoutOwnedFrom(r, lines, i + 1);
      OwnedExactly(r, lines, i);
      WithoutOwnedStep(r, lines, i, BelongsToOwner(r, lines, i));
    }
  }

  lemma {:induction false} WithoutMitFrom(r: Rules, lines: seq<string>, i: nat)
    requires i <= |lines| && !Mixed(r, lines)
    ensures KeptLines(r, lines, |lines|) == KeptLines(r, lines, i) + WithoutMit(r, lines[i..])
    decreases |lines| - i
  {
    if i < |lines| {
      WithoutMitFrom(r, lines, i + 1);
      assert lines[i..][1..] == lines[i + 1..];
    }
  }

  /** What is kept is exactly what is not dropped; with several owners that depends on the lines above. */
  lemma KeptExactly(r: Rules, lines: seq<string>)
    ensures Kept(r, lines) == KeptLines(r, lines, |lines|)
  {
    assert lines[0..] == lines;
    if Mixed(r, lines) {
      WithoutOwnedFrom(r, lines, 0);
    } else {
      WithoutMitFrom(r, lines, 0);
    }
  }

  /** The last line that stays shares its line with the licence identifier. */
  ghost predicate IdentifierLast(r: Rules, lines: seq<string>) {
    exists i | 0 <= i < |lines| :: LastToStay(r, lines, i) && r.compact(lines[i]).Some?
  }

  ghost predicate LastToStay(r: Rules, lines: seq<string>, i: nat)
    requires i < |lines|
  {
    !Dropped(r, lines, i) && forall j | i < j < |lines| :: Dropped(r, lines, j)
  }

  lemma {:induction false} LastKept(r: Rules, lines: seq<string>, n: nat) returns (i: int)
    requires n <= |lines|
    ensures -1 <= i < n && (i == -1 <==> KeptLines(r, lines, n) == [])
    ensures forall j | i < j < n :: Dropped(r, lines, j)
    ensures i >= 0 ==> !Dropped(r, lines, i) && KeptLines(r, lines, n)[|KeptLines(r, lines, n)| - 1] == lines[i]
  {
    if n == 0 {
      i := -1;
    } else if Dropped(r, lines, n - 1) {
      i := LastKept(r, lines, n - 1);
    } else {
      i := n - 1;
    }
  }

  predicate EndsCompact(r: Rules, lines: seq<string>) {
    lines != [] && r.compact(lines[|lines| - 1]).Some?
  }

  lemma IdentifierLastExactly(r: Rules, lines: seq<string>)
    ensures EndsCompact(r, Kept(r, lines)) <==> IdentifierLast(r, lines)
  {
    KeptExactly(r, lines);
    var i := LastKept(r, lines, |lines|);
    if i >= 0 {
      assert LastToStay(r, lines, i);
    }
  }

  // ----- Everything that is not a licence line stays, in order -----

  lemma {:induction false} OwnedKeepsProse(r: Rules, lines: seq<string>, owned: bool)
    ensures WithoutMit(r, WithoutOwned(r, lines, owned)) == WithoutMit(r, lines)
  {
    if lines != [] {
      var k := r.kind(lines[0]);
      var rest := WithoutOwned(r, lines[1..], Owned(k, owned));
      OwnedKeepsProse(r, lines[1..], Owned(k, owned));
      assert ([lines[0]] + rest)[1..] == rest;
      assert [] + rest == rest;
    }
  }

  lemma {:induction false} WithoutMitIdempotent(r: Rules, lines: seq<string>)
    ensures WithoutMit(r, WithoutMit(r, lines)) == WithoutMit(r, lines)
  {
    if lines != [] {
      var rest := WithoutMit(r, lines[1..]);
      WithoutMitIdempotent(r, lines[1..]);
      assert ([lines[0]] + rest)[1..] == rest;
      assert [] + rest == rest;
    }
  }

  lemma WithoutMitCons(r: Rules, l: string, rest: seq<string>)
    ensures WithoutMit(r, [l] + rest) == (if r.kind(l).Mit? then [] else [l]) + WithoutMit(r, rest)
  {
    assert ([l] + rest)[1..] == rest;
  }

  lemma ExpandCons(r: Rules, l: string, rest: seq<string>)
    ensures Expand(r, [l] + rest) == Expanded(r, l) + Expand(r, rest)
  {
    assert ([l] + rest)[1..] == rest;
  }

  lemma TrimCons(r: Rules, l: string, rest: seq<string>)
    ensures Trim(r, [l] + rest) == [TrimLine(r, l)] + Trim(r, rest)
  {
    assert ([l] + rest)[1..] == rest;
  }

  lemma WithoutOwnedCons(r: Rules, l: string, rest: seq<string>, owned: bool)
    ensures WithoutOwned(r, [l] + rest, owned) ==
            (if r.kind(l).Mit? && owned then [] else [l]) + WithoutOwned(r, rest, Owned(r.kind(l), owned))
  {
    assert ([l] + rest)[1..] == rest;
  }

  lemma WithoutMitNotice(r: Rules, l: string, rest: seq<string>)
    requires Coherent(r) && r.kind(l).Notice?
    ensures WithoutMit(r, Expanded(r, l) + rest) == [r.trim(l)] + WithoutMit(r, rest)
  {
    assert NoticeCoherent(r, l);
    assert Expanded(r, l) + rest == [r.trim(l)] + ([r.licence(l)] + rest);
    WithoutMitCons(r, r.trim(l), [r.licence(l)] + rest);
    WithoutMitCons(r, r.licence(l), rest);
    assert [] + WithoutMit(r, rest) == WithoutMit(r, rest);
  }

  /** Taking the licence lines out again leaves the other lines, with their notices trimmed. */
  lemma {:induction false} ExpandKeepsProse(r: Rules, lines: seq<string>)
    requires Coherent(r)
    ensures WithoutMit(r, Expand(r, lines)) == Trim(r, WithoutMit(r, lines))
  {
    if lines != [] {
      var l, rest := lines[0], lines[1..];
      ExpandKeepsProse(r, rest);
      if r.kind(l).Notice? {
        WithoutMitNotice(r, l, Expand(r, rest));
        TrimCons(r, l, WithoutMit(r, rest));
      } else {
        WithoutMitCons(r, l, Expand(r, rest));
        TrimCons(r, l, WithoutMit(r, rest));
        assert [] + WithoutMit(r, rest) == WithoutMit(r, rest);
      }
    }
  }

  /** The rewritten comment has every line that is not a licence line, in its old order. */
  lemma ProseKept(r: Rules, body: seq<string>)
    requires Coherent(r)
    ensures WithoutMit(r, Expand(r, Kept(r, body))) == Trim(r, WithoutMit(r, body))
  {
    ExpandKeepsProse(r, Kept(r, body));
    OwnedKeepsProse(r, body, false);
    WithoutMitIdempotent(r, body);
  }

  // ----- A second pass changes nothing -----

  lemma {:induction false} WithoutOwnedIdempotent(r: Rules, lines: seq<string>, owned: bool)
    ensures WithoutOwned(r, WithoutOwned(r, lines, owned), owned) == WithoutOwned(r, lines, owned)
  {
    if lines != [] {
      var k := r.kind(lines[0]);
      var rest := WithoutOwned(r, lines[1..], Owned(k, owned));
      WithoutOwnedIdempotent(r, lines[1..], Owned(k, owned));
      WithoutOwnedCons(r, lines[0], rest, owned);
      assert [] + rest == rest;
    }
  }

  /** A notice that was expanded looks like the trimmed notice again. */
  lemma WithoutOwnedNotice(r: Rules, l: string, rest: seq<string>, owned: bool)
    requires Coherent(r) && r.kind(l).Notice?
    ensures WithoutOwned(r, Expanded(r, l) + rest, owned) == [r.trim(l)] + WithoutOwned(r, rest, true)
  {
    assert NoticeCoherent(r, l);
    assert Expanded(r, l) + rest == [r.trim(l)] + ([r.licence(l)] + rest);
    WithoutOwnedCons(r, r.trim(l), [r.licence(l)] + rest, owned);
    WithoutOwnedCons(r, r.licence(l), rest, true);
    assert [] + WithoutOwned(r, rest, true) == WithoutOwned(r, rest, true);
  }

  lemma {:induction false} WithoutOwnedExpand(r: Rules, lines: seq<string>, owned: bool)
    requires Coherent(r)
    ensures WithoutOwned(r, Expand(r, lines), owned) == Trim(r, WithoutOwned(r, lines, owned))
  {
    if lines != [] {
      var l, rest := lines[0], lines[1..];
      var k := r.kind(l);
      var e := Expand(r, rest);
      WithoutOwnedExpand(r, rest, Owned(k, owned));
      TrimCons(r, l, WithoutOwned(r, rest, Owned(k, owned)));
      if k.Notice? {
        WithoutOwnedNotice(r, l, e, owned);
      } else {
        WithoutOwnedCons(r, l, e, owned);
        var kept := WithoutOwned(r, rest, Owned(k, owned));
        assert [] + kept == kept;
      }
    }
  }

  lemma {:induction false} ExpandTrim(r: Rules, lines: seq<string>)
    requires Coherent(r)
    ensures Expand(r, Trim(r, lines)) == Expand(r, lines)
  {
    if lines != [] {
      ExpandTrim(r, lines[1..]);
      assert NoticeCoherent(r, lines[0]);
      ExpandCons(r, TrimLine(r, lines[0]), Trim(r, lines[1..]));
    }
  }

  /** Where every line of the rewritten comment comes from. */
  lemma {:induction false} ExpandMembers(r: Rules, lines: seq<string>, x: string)
    ensures x in Expand(r, lines) <==> exists l | l in lines :: x in Expanded(r, l)
  {
    if lines != [] {
      ExpandMembers(r, lines[1..], x);
      assert forall l :: l in lines <==> l == lines[0] || l in lines[1..];
    }
  }

  lemma {:induction false} WithoutMitMembers(r: Rules, lines: seq<string>, x: string)
    ensures x in WithoutMit(r, lines) <==> x in lines && !r.kind(x).Mit?
  {
    if lines != [] {
      WithoutMitMembers(r, lines[1..], x);
    }
  }

  lemma {:induction false} WithoutOwnedMembers(r: Rules, lines: seq<string>, owned: bool, x: string)
    ensures x in WithoutOwned(r, lines, owned) ==> x in lines
    ensures x in lines && !r.kind(x).Mit? ==> x in WithoutOwned(r, lines, owned)
  {
    if lines != [] {
      WithoutOwnedMembers(r, lines[1..], Owned(r.kind(lines[0]), owned), x);
    }
  }

  lemma KeptMembers(r: Rules, lines: seq<string>, x: string)
    ensures x in Kept(r, lines) ==> x in lines
    ensures x in lines && !r.kind(x).Mit? ==> x in Kept(r, lines)
  {
    WithoutMitMembers(r, lines, x);
    WithoutOwnedMembers(r, lines, false, x);
  }

  lemma MixedAgain(r: Rules, body: seq<string>)
    requires Coherent(r)
    ensures Mixed(r, Expand(r, Kept(r, body))) <==> Mixed(r, body)
  {
    var kept := Kept(r, body);
    forall x | r.kind(x).OtherCopyright?
      ensures x in Expand(r, kept) <==> x in body
    {
      ExpandMembers(r, kept, x);
      KeptMembers(r, body, x);
      assert x in kept ==> x in Expanded(r, x);
      forall l | l in kept && x in Expanded(r, l)
        ensures l == x
      {
        assert NoticeCoherent(r, l);
      }
    }
  }

  lemma NoticeAgain(r: Rules, body: seq<string>)
    requires Coherent(r)
    requires HasNotice(r, body)
    ensures HasNotice(r, Expand(r, Kept(r, body)))
  {
    var l :| l in body && r.kind(l).Notice?;
    KeptMembers(r, body, l);
    ExpandMembers(r, Kept(r, body), r.trim(l));
    assert r.trim(l) in Expanded(r, l);
    assert NoticeCoherent(r, l);
  }

  lemma NoConflictAgain(r: Rules, body: seq<string>)
    requires Coherent(r)
    requires forall l | l in body :: !r.conflict(l)
    ensures forall l | l in Expand(r, Kept(r, body)) :: !r.conflict(l)
  {
    forall x | x in Expand(r, Kept(r, body))
      ensures !r.conflict(x)
    {
      ExpandMembers(r, Kept(r, body), x);
      var l :| l in Kept(r, body) && x in Expanded(r, l);
      KeptMembers(r, body, l);
      assert NoticeCoherent(r, l);
    }
  }

  lemma KeptAgain(r: Rules, body: seq<string>)
    requires Coherent(r)
    ensures Expand(r, Kept(r, Expand(r, Kept(r, body)))) == Expand(r, Kept(r, body))
  {
    var kept := Kept(r, body);
    MixedAgain(r, body);
    if Mixed(r, body) {
      WithoutOwnedExpand(r, kept, false);
      WithoutOwnedIdempotent(r, body, false);
    } else {
      ExpandKeepsProse(r, kept);
      WithoutMitIdempotent(r, body);
    }
    ExpandTrim(r, kept);
  }

  lemma {:induction false} ExpandLast(r: Rules, lines: seq<string>)
    requires Coherent(r) && lines != []
    ensures Expand(r, lines) != []
    ensures var l := lines[|lines| - 1];
            Expand(r, lines)[|Expand(r, lines)| - 1] == if r.kind(l).Notice? then r.licence(l) else l
  {
    if |lines| > 1 {
      ExpandLast(r, lines[1..]);
    } else {
      assert lines[1..] == [];
    }
  }

  lemma ExpandEndsCompact(r: Rules, lines: seq<string>)
    requires Coherent(r)
    ensures EndsCompact(r, Expand(r, lines)) <==> EndsCompact(r, lines)
  {
    if lines != [] {
      ExpandLast(r, lines);
      assert NoticeCoherent(r, lines[|lines| - 1]);
    }
  }

  /** Splitting a compact last line leaves no compact last line behind. */
  lemma UncompactOnce(r: Rules, lines: seq<string>)
    requires Coherent(r) && EndsCompact(r, lines)
    ensures !EndsCompact(r, Kept(r, Uncompact(r, lines)))
  {
    var n := |lines| - 1;
    var body := Uncompact(r, lines);
    var front := r.compact(lines[n]).value;
    assert CompactCoherent(r, lines[n]);
    IdentifierLastExactly(r, body);
    assert body[n] == front && body[n + 1] == SPDX && |body| == n + 2;
    assert !Dropped(r, body, n);
    forall i | 0 <= i < |body| && LastToStay(r, body, i)
      ensures r.compact(body[i]).None?
    {
      assert i >= n;
    }
  }

  lemma UncompactNotice(r: Rules, lines: seq<string>)
    requires Coherent(r) && HasNotice(r, lines)
    ensures HasNotice(r, Uncompact(r, lines))
  {
    var i :| 0 <= i < |lines| && r.kind(lines[i]).Notice?;
    assert NoticeCoherent(r, lines[i]);
    assert Uncompact(r, lines)[i] == lines[i];
  }

  lemma NormalizedAgain(r: Rules, body: seq<string>)
    requires Coherent(r)
    requires HasNotice(r, body) && forall l | l in body :: !r.conflict(l)
    requires !EndsCompact(r, Kept(r, body))
    ensures Normalized(r, Expand(r, Kept(r, body))) == Rewritten(Expand(r, Kept(r, body)))
  {
    var out := Expand(r, Kept(r, body));
    ExpandEndsCompact(r, Kept(r, body));
    assert Uncompact(r, out) == out;
    NoticeAgain(r, body);
    NoConflictAgain(r, body);
    KeptAgain(r, body);
  }

  /**
   Normalising a second time changes nothing, if and only if the last line that stays does not
   share its line with the licence identifier.
   */
  lemma IdempotentExactly(r: Rules, lines: seq<string>)
    requires Coherent(r) && Normalized(r, lines).Rewritten?
    ensures var out := Normalized(r, lines);
            && !Normalized(r, out.lines).Unchanged?
            && (Normalized(r, out.lines) == out <==> !IdentifierLast(r, Uncompact(r, lines)))
  {
    var body := Uncompact(r, lines);
    var out := Normalized(r, lines).lines;
    NoticeAgain(r, body);
    UncompactNotice(r, out);
    IdentifierLastExactly(r, body);
    ExpandEndsCompact(r, Kept(r, body));
    if EndsCompact(r, Kept(r, body)) {
      UncompactOnce(r, out);
      ExpandEndsCompact(r, Kept(r, Uncompact(r, out)));
    } else {
      NormalizedAgain(r, body);
    }
  }

  /** A compact line above a licence line at the end is not split at once. */
  lemma CompactResurfaces(r: Rules, notice: string, compact: string, licence: string)
    requires Coherent(r)
    requires r.kind(notice).Notice? && r.kind(licence).Mit? && r.compact(licence).None?
    requires !r.kind(compact).Mit? && !r.kind(compact).OtherCopyright? && r.compact(compact).Some?
    requires !r.conflict(notice) && !r.conflict(compact) && !r.conflict(licence)
    ensures Normalized(r, [notice, compact, licence]).Rewritten?
    ensures var out := Normalized(r, [notice, compact, licence]); Normalized(r, out.lines) != out
  {
    var lines := [notice, compact, licence];
    assert Uncompact(r, lines) == lines;
    assert notice in lines;
    assert !Mixed(r, lines);
    assert LastToStay(r, lines, 1);
    IdempotentExactly(r, lines);
  }
}
