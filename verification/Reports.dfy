/**
 Test reports and their merging: overlay reports are folded into a base report through a
 position index, which must amount to "the last writer of an ID wins".
 */
module Reports {
  import opened Options
  import opened Text

  /** One recorded test; a record without an outcome counts as "unknown". */
  datatype Test = Test(nodeid: string, outcome: string, detail: string)

  datatype Report = Report(tests: seq<Test>, summary: map<string, int>)

  function Ids(tests: seq<Test>): (ids: seq<string>)
    ensures |ids| == |tests| && forall i | 0 <= i < |tests| :: ids[i] == tests[i].nodeid
  {
    seq(|tests|, i requires 0 <= i < |tests| => tests[i].nodeid)
  }

  // ----- The reference: last writer wins -----

  /** The last record of an overlay for an ID; records without an ID never count. */
  function LastWriter(overlay: seq<Test>, id: string): (r: Option<Test>)
    ensures r.Some? ==> r.value in overlay && r.value.nodeid == id && id != ""
    ensures r.None? <==> id == "" || forall t | t in overlay :: t.nodeid != id
  {
    if overlay == [] then None
    else
      var n := |overlay| - 1;
      if overlay[n].nodeid == id && id != "" then Some(overlay[n]) else LastWriter(overlay[..n], id)
  }

  /** The IDs an overlay adds to those known, in order of first appearance. */
  function NewIds(known: seq<string>, overlay: seq<Test>): (r: seq<string>)
    ensures forall i, k | 0 <= i < k < |r| :: r[i] != r[k]
    ensures forall x | x in r :: x != "" && x !in known
  {
    if overlay == [] then []
    else
      var n := |overlay| - 1;
      var before := NewIds(known, overlay[..n]);
      var id := overlay[n].nodeid;
      if id == "" || id in known || id in before then before else before + [id]
  }

  lemma {:induction false} NewIdsExactly(known: seq<string>, overlay: seq<Test>, id: string)
    ensures id in NewIds(known, overlay) <==> id != "" && id !in known && id in Ids(overlay)
  {
    if overlay != [] {
      var n := |overlay| - 1;
      NewIdsExactly(known, overlay[..n], id);
      assert Ids(overlay) == Ids(overlay[..n]) + [overlay[n].nodeid];
    }
  }

  /** The last position of an ID, or the length of the list when it is absent. */
  function LastIndex(ids: seq<string>, id: string): (k: nat)
    ensures k <= |ids| && (k < |ids| <==> id in ids)
    ensures k < |ids| ==> ids[k] == id && forall m | k < m < |ids| :: ids[m] != id
  {
    if ids == [] then 0
    else
      var n := |ids| - 1;
      if ids[n] == id then n
      else
        var k := LastIndex(ids[..n], id);
        if k == n then |ids| else k
  }

  /**
   The merged list says what a merge means: the base IDs, then the added IDs in order of first
   appearance; at each position the last overlay record for its ID, where the position is the
   ID's last one in the base, and the base record everywhere else.
   */
  ghost predicate IsMerge(base: seq<Test>, overlay: seq<Test>, merged: seq<Test>) {
    && Ids(merged) == Ids(base) + NewIds(Ids(base), overlay)
    && (forall p | |base| <= p < |merged| :: LastWriter(overlay, merged[p].nodeid) == Some(merged[p]))
    && (forall p | 0 <= p < |base| ::
          var w := LastWriter(overlay, base[p].nodeid);
          merged[p] == if w.Some? && LastIndex(Ids(base), base[p].nodeid) == p then w.value else base[p])
  }

  // ----- Folding one record at a time -----

  function Apply(tests: seq<Test>, t: Test): seq<Test> {
    if t.nodeid == "" then tests
    else
      var k := LastIndex(Ids(tests), t.nodeid);
      if k < |tests| then tests[k := t] else tests + [t]
  }

  function Merge(base: seq<Test>, overlay: seq<Test>): (merged: seq<Test>)
    ensures |merged| >= |base|
  {
    if overlay == [] then base
    else
      var n := |overlay| - 1;
      Apply(Merge(base, overlay[..n]), overlay[n])
  }

  lemma LastIndexUnique(ids: seq<string>, id: string, k: nat)
    requires k < |ids| && ids[k] == id && forall m | k < m < |ids| :: ids[m] != id
    ensures LastIndex(ids, id) == k
  {
  }

  lemma ApplyIds(base: seq<Test>, overlay: seq<Test>, merged: seq<Test>, t: Test)
    requires Ids(merged) == Ids(base) + NewIds(Ids(base), overlay)
    ensures Ids(Apply(merged, t)) == Ids(base) + NewIds(Ids(base), overlay + [t])
  {
    assert (overlay + [t])[..|overlay|] == overlay;
    var known := Ids(base);
    var added := NewIds(known, overlay);
    if t.nodeid != "" {
      if t.nodeid in known || t.nodeid in added {
        assert t.nodeid in known + added;
        assert Ids(Apply(merged, t)) == Ids(merged);
      } else {
        assert t.nodeid !in known + added;
        assert Ids(merged + [t]) == Ids(merged) + [t.nodeid];
      }
    }
  }

  lemma {:induction false} MergeMeaning(base: seq<Test>, overlay: seq<Test>)
    ensures IsMerge(base, overlay, Merge(base, overlay))
  {
    if overlay == [] {
      assert Ids(base) + [] == Ids(base);
    } else {
      var n := |overlay| - 1;
      var t := overlay[n];
      var before := Merge(base, overlay[..n]);
      MergeMeaning(base, overlay[..n]);
      ApplyIds(base, overlay[..n], before, t);
      assert overlay[..n] + [t] == overlay;
      ApplyRecords(base, overlay[..n], before, t);
    }
  }

  /** In the merged list an ID of the base keeps its last base position; an added ID has one position. */
  lemma MergedIndex(base: seq<Test>, overlay: seq<Test>, merged: seq<Test>, p: nat)
    requires Ids(merged) == Ids(base) + NewIds(Ids(base), overlay) && p < |merged|
    ensures p < |base| ==> (LastIndex(Ids(merged), base[p].nodeid) == LastIndex(Ids(base), base[p].nodeid))
    ensures p >= |base| ==> LastIndex(Ids(merged), merged[p].nodeid) == p
  {
    var known, added, ids := Ids(base), NewIds(Ids(base), overlay), Ids(merged);
    if p < |base| {
      var id := base[p].nodeid;
      var k := LastIndex(known, id);
      assert known[p] == id;
      assert ids[k] == id;
      forall m | k < m < |ids| ensures ids[m] != id {
        if m >= |known| {
          assert ids[m] == added[m - |known|] && ids[m] in added;
        }
      }
      LastIndexUnique(ids, id, k);
    } else {
      assert ids[p] == added[p - |known|];
      LastIndexUnique(ids, ids[p], p);
    }
  }

  lemma LastWriterSnoc(overlay: seq<Test>, t: Test, id: string)
    ensures LastWriter(overlay + [t], id) == if t.nodeid == id && id != "" then Some(t) else LastWriter(overlay, id)
  {
    assert (overlay + [t])[..|overlay|] == overlay;
  }

  lemma ApplyBaseRecord(base: seq<Test>, overlay: seq<Test>, merged: seq<Test>, t: Test, p: nat)
    requires IsMerge(base, overlay, merged) && p < |base| <= |merged|
    ensures var w := LastWriter(overlay + [t], base[p].nodeid);
            Apply(merged, t)[p] == if w.Some? && LastIndex(Ids(base), base[p].nodeid) == p then w.value else base[p]
  {
    MergedIndex(base, overlay, merged, p);
    assert Ids(merged)[p] == Ids(base)[p];
    LastWriterSnoc(overlay, t, base[p].nodeid);
  }

  lemma ApplyAddedRecord(base: seq<Test>, overlay: seq<Test>, merged: seq<Test>, t: Test, p: nat)
    requires IsMerge(base, overlay, merged) && |base| <= |merged| && |base| <= p < |Apply(merged, t)|
    ensures var x := Apply(merged, t)[p]; LastWriter(overlay + [t], x.nodeid) == Some(x)
  {
    if p < |merged| {
      MergedIndex(base, overlay, merged, p);
    }
    LastWriterSnoc(overlay, t, Apply(merged, t)[p].nodeid);
  }

  lemma ApplyRecords(base: seq<Test>, overlay: seq<Test>, merged: seq<Test>, t: Test)
    requires IsMerge(base, overlay, merged) && |base| <= |merged|
    requires Ids(Apply(merged, t)) == Ids(base) + NewIds(Ids(base), overlay + [t])
    ensures IsMerge(base, overlay + [t], Apply(merged, t))
  {
    forall p | 0 <= p < |base| {
      ApplyBaseRecord(base, overlay, merged, t, p);
    }
    forall p | |base| <= p < |Apply(merged, t)| {
      ApplyAddedRecord(base, overlay, merged, t, p);
    }
  }

  /** Every merged record is its ID's last overlay record, where an overlay has one. */
  ghost predicate LastWriterWins(overlay: seq<Test>, merged: seq<Test>) {
    forall p | 0 <= p < |merged| ::
      var w := LastWriter(overlay, merged[p].nodeid);
      w.Some? ==> merged[p] == w.value
  }

  /** A base that repeats an overlaid ID keeps the earlier record; that is the only exception. */
  lemma LastWriterWinsExactly(base: seq<Test>, overlay: seq<Test>)
    ensures LastWriterWins(overlay, Merge(base, overlay)) <==>
            forall p | 0 <= p < |base| && LastIndex(Ids(base), base[p].nodeid) != p ::
              var w := LastWriter(overlay, base[p].nodeid);
              w.Some? ==> base[p] == w.value
  {
    MergeMeaning(base, overlay);
    var merged := Merge(base, overlay);
    forall p | 0 <= p < |base| ensures merged[p].nodeid == base[p].nodeid {
      assert Ids(merged)[p] == Ids(base)[p];
    }
  }

  /** Two records of one test in the base: the last overlay record replaces only the second. */
  lemma RepeatedRecordIsKept()
    ensures var failed, passed := Test("t", "failed", ""), Test("t", "passed", "");
            && Merge([failed, failed], [passed]) == [failed, passed]
            && !LastWriterWins([passed], Merge([failed, failed], [passed]))
  {
    var failed, passed := Test("t", "failed", ""), Test("t", "passed", "");
    var base := [failed, failed];
    assert Ids(base) == ["t", "t"];
    assert [passed][..0] == [];
    assert Apply(base, passed) == [failed, passed];
    assert Merge(base, []) == base;
    assert Merge(base, [passed]) == [failed, passed];
    assert LastWriter([passed], "t") == Some(passed);
    assert [failed, passed][0].nodeid == "t" && [failed, passed][0] != passed;
  }

  // ----- The merge as the tool runs it -----

  function AllTests(reports: seq<Report>): seq<Test> {
    if reports == [] then []
    else AllTests(reports[..|reports| - 1]) + reports[|reports| - 1].tests
  }

  function Count(tests: seq<Test>, outcome: string): nat {
    if tests == [] then 0
    else Count(tests[..|tests| - 1], outcome) + if tests[|tests| - 1].outcome == outcome then 1 else 0
  }

  const OUTCOMES := ["passed", "failed", "skipped", "error", "xfailed", "xpassed"]

  function Get(m: map<string, int>, key: string): int {
    if key in m then m[key] else 0
  }

  function Collected(reports: seq<Report>): int {
    if reports == [] then 0
    else Collected(reports[..|reports| - 1]) + Get(reports[|reports| - 1].summary, "collected")
  }

  ghost predicate IsIndex(index: map<string, nat>, tests: seq<Test>) {
    && (forall x :: x in index <==> x in Ids(tests))
    && (forall x | x in index :: index[x] == LastIndex(Ids(tests), x))
  }

  lemma IndexSnoc(index: map<string, nat>, tests: seq<Test>, t: Test)
    requires IsIndex(index, tests)
    ensures IsIndex(index[t.nodeid := |tests|], tests + [t])
  {
    assert Ids(tests + [t]) == Ids(tests) + [t.nodeid];
    assert Ids(tests + [t])[..|tests|] == Ids(tests);
  }

  /** One overlay record, through the position index. */
  method ApplyIndexed(tests: seq<Test>, index: map<string, nat>, t: Test)
    returns (tests': seq<Test>, index': map<string, nat>)
    requires IsIndex(index, tests)
    ensures tests' == Apply(tests, t) && IsIndex(index', tests')
  {
    tests', index' := tests, index;
    if t.nodeid != "" {
      if t.nodeid in index {
        tests' := tests[index[t.nodeid] := t];
        assert Ids(tests') == Ids(tests);
      } else {
        IndexSnoc(index, tests, t);
        index' := index[t.nodeid := |tests|];
        tests' := tests + [t];
      }
    }
  }

  method BuildIndex(tests: seq<Test>) returns (index: map<string, nat>)
    ensures IsIndex(index, tests)
  {
    index := map[];
    for i := 0 to |tests|
      invariant IsIndex(index, tests[..i])
    {
      IndexSnoc(index, tests[..i], tests[i]);
      index := index[tests[i].nodeid := i];
      assert tests[..i + 1] == tests[..i] + [tests[i]];
    }
    assert tests[..|tests|] == tests;
  }

  /** The outcome tallies of a merged list; a known key that no longer occurs becomes zero. */
  method RefreshSummary(tests: seq<Test>, summary: map<string, int>) returns (s: map<string, int>)
    ensures forall k | k in OUTCOMES :: Get(s, k) == Count(tests, k)
    ensures Get(s, "total") == |tests| && Get(s, "collected") == Get(summary, "collected")
    ensures forall k | k in s && k !in OUTCOMES && k != "total" :: k in summary && s[k] == summary[k]
  {
    var tally: map<string, int> := map[];
    for i := 0 to |tests|
      invariant forall k :: Get(tally, k) == Count(tests[..i], k)
      invariant forall k | k in tally :: tally[k] > 0
    {
      tally := tally[tests[i].outcome := Get(tally, tests[i].outcome) + 1];
      assert tests[..i + 1][..i] == tests[..i];
    }
    assert tests[..|tests|] == tests;
    s := summary;
    for i := 0 to |OUTCOMES|
      invariant forall k | k in OUTCOMES[..i] :: Get(s, k) == Count(tests, k)
      invariant forall k | k !in OUTCOMES :: Get(s, k) == Get(summary, k) && (k in s <==> k in summary)
    {
      var key := OUTCOMES[i];
      if key in tally {
        s := s[key := tally[key]];
      } else if key in s {
        s := s[key := 0];
      }
      assert Get(s, key) == Get(tally, key);
    }
    assert "collected" !in OUTCOMES;
    s := s["total" := |tests|];
  }

  method ApplyOverlay(tests: seq<Test>, index: map<string, nat>, overlay: seq<Test>)
    returns (tests': seq<Test>, index': map<string, nat>)
    requires IsIndex(index, tests)
    ensures tests' == Merge(tests, overlay) && IsIndex(index', tests')
  {
    tests', index' := tests, index;
    for k := 0 to |overlay|
      invariant tests' == Merge(tests, overlay[..k]) && IsIndex(index', tests')
    {
      tests', index' := ApplyIndexed(tests', index', overlay[k]);
      assert overlay[..k + 1][..k] == overlay[..k];
    }
    assert overlay[..|overlay|] == overlay;
  }

  lemma MergeSnoc(base: seq<Test>, overlay: seq<Test>, t: Test)
    ensures Merge(base, overlay + [t]) == Apply(Merge(base, overlay), t)
  {
    assert (overlay + [t])[..|overlay|] == overlay;
  }

  lemma {:induction false} MergeConcat(base: seq<Test>, a: seq<Test>, b: seq<Test>)
    ensures Merge(Merge(base, a), b) == Merge(base, a + b)
  {
    if b == [] {
      assert a + b == a;
    } else {
      var front, t := b[..|b| - 1], b[|b| - 1];
      var merged := Merge(base, a);
      calc {
        Merge(merged, b);
      ==  { assert b == front + [t]; }
        Merge(merged, front + [t]);
      ==  { MergeSnoc(merged, front, t); }
        Apply(Merge(merged, front), t);
      ==  { MergeConcat(base, a, front); }
        Apply(Merge(base, a + front), t);
      ==  { MergeSnoc(base, a + front, t); }
        Merge(base, (a + front) + [t]);
      ==  { assert (a + front) + [t] == a + b; }
        Merge(base, a + b);
      }
    }
  }

  /** Folds overlay reports into a base report; the overlay records replace or extend its records. */
  method MergeReports(base: Report, overlays: seq<Report>, sumCollected: bool) returns (merged: Report)
    ensures merged.tests == Merge(base.tests, AllTests(overlays))
    ensures forall k | k in OUTCOMES :: Get(merged.summary, k) == Count(merged.tests, k)
    ensures Get(merged.summary, "total") == |merged.tests|
    ensures Get(merged.summary, "collected") ==
            Get(base.summary, "collected") + if sumCollected then Collected(overlays) else 0
  {
    var tests := base.tests;
    var index := BuildIndex(tests);
    var collected := Get(base.summary, "collected");
    for i := 0 to |overlays|
      invariant tests == Merge(base.tests, AllTests(overlays[..i])) && IsIndex(index, tests)
      invariant collected == Get(base.summary, "collected") + if sumCollected then Collected(overlays[..i]) else 0
    {
      assert overlays[..i + 1][..i] == overlays[..i];
      MergeConcat(base.tests, AllTests(overlays[..i]), overlays[i].tests);
      if sumCollected {
        collected := collected + Get(overlays[i].summary, "collected");
      }
      tests, index := ApplyOverlay(tests, index, overlays[i].tests);
    }
    assert overlays[..|overlays|] == overlays;
    var summary := RefreshSummary(tests, base.summary);
    if sumCollected {
      summary := summary["collected" := collected];
    }
    merged := Report(tests, summary);
  }
}
