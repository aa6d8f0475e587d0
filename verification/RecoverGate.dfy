/**
 Recovering transient failures by re-running them, and gating on the merged report.  The
 re-runner is untrusted: whatever reports it writes, and however often it writes none, a
 green verdict must mean that every assigned test has a recorded outcome and none failed.
 */
module RecoverGate {
  import opened Options
  import opened Text
  import opened Reports
  import Splitting

  predicate Failing(t: Test) {
    t.outcome == "failed" || t.outcome == "error"
  }

  /** A record's ID with the caller's prefix removed. */
  function Id(t: Test, strip: string): string {
    Without(t.nodeid, strip)
  }

  /** The IDs of the failed records, first occurrences in order. */
  function FailureIds(tests: seq<Test>, strip: string): (r: seq<string>)
    ensures forall x | x in r :: x != ""
  {
    if tests == [] then []
    else
      var n := |tests| - 1;
      var before := FailureIds(tests[..n], strip);
      var id := Id(tests[n], strip);
      if Failing(tests[n]) && id != "" && id !in before then before + [id] else before
  }

  function RecordedIds(tests: seq<Test>, strip: string): set<string> {
    set t | t in tests && Id(t, strip) != "" :: Id(t, strip)
  }

  lemma {:induction false} FailureIdsExactly(tests: seq<Test>, strip: string, id: string)
    ensures id in FailureIds(tests, strip) <==>
            id != "" && exists t | t in tests :: Failing(t) && Id(t, strip) == id
  {
    if tests != [] {
      var n := |tests| - 1;
      FailureIdsExactly(tests[..n], strip, id);
      assert tests == tests[..n] + [tests[n]];
    }
  }

  /** The assigned IDs that have no recorded outcome. */
  function Unrecorded(expected: seq<string>, tests: seq<Test>, strip: string): (r: seq<string>)
    ensures forall x :: x in r <==> x in expected && x !in RecordedIds(tests, strip)
  {
    if expected == [] then []
    else
      var n := |expected| - 1;
      var before := Unrecorded(expected[..n], tests, strip);
      assert expected == expected[..n] + [expected[n]];
      if expected[n] in RecordedIds(tests, strip) then before else before + [expected[n]]
  }

  /** What one re-run pass left behind: the reports it wrote, and whether merging them raised. */
  datatype Rerun = Rerun(reports: seq<Report>, mergeFails: bool)

  datatype Config = Config(strip: string, transientLimit: int, missingLimit: int, expected: seq<string>)

  /** Whether a pass ends the recovery: nothing to do, too much to do, or nothing to merge. */
  predicate Stops(c: Config, tests: seq<Test>, rerun: Rerun) {
    var failing, missing := |FailureIds(tests, c.strip)|, |Unrecorded(c.expected, tests, c.strip)|;
    || (failing == 0 && missing == 0)
    || failing > c.transientLimit
    || missing > c.missingLimit
    || rerun.reports == []
    || rerun.mergeFails
  }

  /** The records the gate sees after at most one pass per re-run. */
  function Recovered(c: Config, tests: seq<Test>, reruns: seq<Rerun>): seq<Test>
    decreases |reruns|
  {
    if reruns == [] || Stops(c, tests, reruns[0]) then tests
    else Recovered(c, Merge(tests, AllTests(reruns[0].reports)), reruns[1..])
  }

  /** The failed and the unrecorded IDs: what stands between a report and a green verdict. */
  function Residual(c: Config, tests: seq<Test>): set<string> {
    Elements(FailureIds(tests, c.strip)) + Elements(Unrecorded(c.expected, tests, c.strip))
  }

  /** What a green verdict promises. */
  ghost predicate Clean(c: Config, tests: seq<Test>) {
    && (forall t | t in tests && Id(t, c.strip) != "" :: !Failing(t))
    && (forall x | x in c.expected :: x in RecordedIds(tests, c.strip))
  }

  lemma ResidualExactly(c: Config, tests: seq<Test>)
    ensures Residual(c, tests) == {} <==> Clean(c, tests)
  {
    var failing := FailureIds(tests, c.strip);
    forall t | t in tests && Id(t, c.strip) != "" && Failing(t) ensures Id(t, c.strip) in Residual(c, tests) {
      FailureIdsExactly(tests, c.strip, Id(t, c.strip));
    }
    if Clean(c, tests) && failing != [] {
      FailureIdsExactly(tests, c.strip, failing[0]);
      assert false;
    }
    forall x | x in c.expected && x !in RecordedIds(tests, c.strip) ensures x in Residual(c, tests) {
      assert x in Unrecorded(c.expected, tests, c.strip);
    }
  }

  // ----- The command -----

  /** The caller's list of assigned node IDs. */
  datatype Assigned = NotGiven | UnreadableList | Lines(lines: seq<string>)

  function ExpectedIds(a: Assigned, strip: string): seq<string> {
    if a.Lines? then Splitting.Universe(a.lines, strip) else []
  }

  /** The command refuses to gate at all without a re-run command, a report, or a usable list. */
  predicate Gateable(commandGiven: bool, report: Option<Report>, a: Assigned, strip: string) {
    && commandGiven
    && report.Some?
    && !a.UnreadableList?
    && (a.Lines? ==> ExpectedIds(a, strip) != [])
  }

  method RecoverAndGate(commandGiven: bool, report: Option<Report>, a: Assigned, strip: string,
                        transientLimit: int, missingLimit: int, reruns: seq<Rerun>)
    returns (code: int, final: Report)
    ensures var c := Config(strip, transientLimit, missingLimit, ExpectedIds(a, strip));
            && (code == 0 <==> Gateable(commandGiven, report, a, strip) && Clean(c, final.tests))
            && (Gateable(commandGiven, report, a, strip) ==> final.tests == Recovered(c, report.value.tests, reruns))
  {
    code, final := 1, Report([], map[]);
    if !commandGiven || report.None? || a.UnreadableList? {
      return;
    }
    var c := Config(strip, transientLimit, missingLimit, ExpectedIds(a, strip));
    if a.Lines? && c.expected == [] {
      return;
    }
    final := report.value;
    var pass := 0;
    var going := true;
    while pass < |reruns| && going
      decreases |reruns| - pass, going
      invariant 0 <= pass <= |reruns|
      invariant Recovered(c, report.value.tests, reruns) ==
                if going then Recovered(c, final.tests, reruns[pass..]) else final.tests
    {
      var failing := FailureIds(final.tests, strip);
      var missing := Unrecorded(c.expected, final.tests, strip);
      var rerun := reruns[pass];
      if (failing == [] && missing == []) || |failing| > transientLimit || |missing| > missingLimit
         || rerun.reports == [] || rerun.mergeFails
      {
        going := false;
      } else {
        final := MergeReports(final, rerun.reports, false);
        assert reruns[pass..][1..] == reruns[pass + 1..];
        pass := pass + 1;
      }
    }
    var residual := FailureIds(final.tests, strip);
    var stillMissing := Unrecorded(c.expected, final.tests, strip);
    ResidualExactly(c, final.tests);
    NoElements(residual);
    NoElements(stillMissing);
    if residual == [] && stillMissing == [] {
      code := 0;
    }
  }

  // ----- Soundness against any re-runner -----

  /** A record somebody wrote: in the original report or in a re-run's report. */
  ghost predicate Seen(t: Test, tests: seq<Test>, reruns: seq<Rerun>) {
    t in tests || exists r | r in reruns :: t in AllTests(r.reports)
  }

  lemma IdListed(tests: seq<Test>, t: Test)
    requires t in tests
    ensures t.nodeid in Ids(tests)
  {
    var i :| 0 <= i < |tests| && tests[i] == t;
    assert Ids(tests)[i] == t.nodeid;
  }

  lemma RecordFor(tests: seq<Test>, id: string) returns (t: Test)
    requires id in Ids(tests)
    ensures t in tests && t.nodeid == id
  {
    var i :| 0 <= i < |tests| && Ids(tests)[i] == id;
    t := tests[i];
  }

  lemma MergeSources(base: seq<Test>, overlay: seq<Test>)
    ensures forall t | t in Merge(base, overlay) :: t in base || t in overlay
    ensures forall x | x in Ids(base) :: x in Ids(Merge(base, overlay))
    ensures forall x | x in Ids(overlay) && x != "" :: x in Ids(Merge(base, overlay))
  {
    MergeMeaning(base, overlay);
    var merged := Merge(base, overlay);
    forall t | t in merged ensures t in base || t in overlay {
      var p :| 0 <= p < |merged| && merged[p] == t;
    }
    forall x | x in Ids(overlay) && x != "" ensures x in Ids(merged) {
      NewIdsExactly(Ids(base), overlay, x);
    }
  }

  lemma {:induction false} RecoveredSources(c: Config, tests: seq<Test>, reruns: seq<Rerun>)
    ensures forall t | t in Recovered(c, tests, reruns) :: Seen(t, tests, reruns)
    ensures forall x | x in Ids(tests) :: x in Ids(Recovered(c, tests, reruns))
    decreases |reruns|
  {
    if reruns != [] && !Stops(c, tests, reruns[0]) {
      var overlay := AllTests(reruns[0].reports);
      MergeSources(tests, overlay);
      RecoveredSources(c, Merge(tests, overlay), reruns[1..]);
    }
  }

  /**
   A green verdict about a test that was assigned, or that the first run recorded as failed,
   rests on some execution that recorded it as not failed: a test that fails or goes
   unrecorded in every execution is never scored green.
   */
  lemma GreenRestsOnAPass(c: Config, tests: seq<Test>, reruns: seq<Rerun>, id: string) returns (pass: Test)
    requires id != "" && Clean(c, Recovered(c, tests, reruns))
    requires id in c.expected || exists t | t in tests :: Failing(t) && Id(t, c.strip) == id
    ensures Seen(pass, tests, reruns) && Id(pass, c.strip) == id && !Failing(pass)
  {
    var final := Recovered(c, tests, reruns);
    RecoveredSources(c, tests, reruns);
    if id in c.expected {
      assert id in RecordedIds(final, c.strip);
      pass :| pass in final && Id(pass, c.strip) == id;
    } else {
      var t :| t in tests && Failing(t) && Id(t, c.strip) == id;
      IdListed(tests, t);
      pass := RecordFor(final, t.nodeid);
    }
  }

  // ----- Monotonicity -----

  /** A re-run that reports only on the tests it was asked to run. */
  ghost predicate Confined(c: Config, tests: seq<Test>, rerun: Rerun) {
    forall t | t in AllTests(rerun.reports) && Id(t, c.strip) != "" :: Id(t, c.strip) in Residual(c, tests)
  }

  lemma RecordedGrows(base: seq<Test>, overlay: seq<Test>, strip: string)
    ensures RecordedIds(base, strip) <= RecordedIds(Merge(base, overlay), strip)
  {
    MergeSources(base, overlay);
    var merged := Merge(base, overlay);
    forall x | x in RecordedIds(base, strip) ensures x in RecordedIds(merged, strip) {
      var t :| t in base && Id(t, strip) == x;
      IdListed(base, t);
      var u := RecordFor(merged, t.nodeid);
    }
  }

  /** One pass never makes anything worse. */
  lemma PassMonotone(c: Config, tests: seq<Test>, rerun: Rerun)
    requires Confined(c, tests, rerun)
    ensures Residual(c, Merge(tests, AllTests(rerun.reports))) <= Residual(c, tests)
  {
    var overlay := AllTests(rerun.reports);
    var merged := Merge(tests, overlay);
    MergeSources(tests, overlay);
    RecordedGrows(tests, overlay, c.strip);
    forall x | x in FailureIds(merged, c.strip) ensures x in Residual(c, tests) {
      FailureIdsExactly(merged, c.strip, x);
      var t :| t in merged && Failing(t) && Id(t, c.strip) == x;
      FailureIdsExactly(tests, c.strip, x);
    }
  }

  /** Every pass that takes place reports only on the tests it was asked to run. */
  ghost predicate AllConfined(c: Config, tests: seq<Test>, reruns: seq<Rerun>)
    decreases |reruns|
  {
    reruns != [] && !Stops(c, tests, reruns[0]) ==>
      && Confined(c, tests, reruns[0])
      && AllConfined(c, Merge(tests, AllTests(reruns[0].reports)), reruns[1..])
  }

  /** Over the whole recovery the residual set only shrinks and no recorded ID disappears. */
  lemma {:induction false} RecoveryMonotone(c: Config, tests: seq<Test>, reruns: seq<Rerun>)
    requires AllConfined(c, tests, reruns)
    ensures Residual(c, Recovered(c, tests, reruns)) <= Residual(c, tests)
    ensures RecordedIds(tests, c.strip) <= RecordedIds(Recovered(c, tests, reruns), c.strip)
    decreases |reruns|
  {
    if reruns != [] && !Stops(c, tests, reruns[0]) {
      var overlay := AllTests(reruns[0].reports);
      PassMonotone(c, tests, reruns[0]);
      RecordedGrows(tests, overlay, c.strip);
      RecoveryMonotone(c, Merge(tests, overlay), reruns[1..]);
    }
  }

  /** Reports that write each test's ID in one form, and list it once in the base. */
  ghost predicate OneForm(base: seq<Test>, overlay: seq<Test>, strip: string) {
    && (forall t, u | t in base + overlay && u in base + overlay && Id(t, strip) == Id(u, strip) :: t.nodeid == u.nodeid)
    && (forall i, k | 0 <= i < k < |base| :: base[i].nodeid != base[k].nodeid)
  }

  /** In the merged report the test has no record but its last re-run's. */
  lemma OnlyRecord(tests: seq<Test>, overlay: seq<Test>, strip: string, u: Test, p: nat)
    requires OneForm(tests, overlay, strip) && LastWriter(overlay, u.nodeid) == Some(u)
    requires p < |Merge(tests, overlay)| && Id(Merge(tests, overlay)[p], strip) == Id(u, strip)
    ensures Merge(tests, overlay)[p] == u
  {
    var merged := Merge(tests, overlay);
    MergeMeaning(tests, overlay);
    MergeSources(tests, overlay);
    assert merged[p] in tests + overlay && u in tests + overlay;
    if p < |tests| {
      assert Ids(merged)[p] == Ids(tests)[p];
      LastIndexUnique(Ids(tests), u.nodeid, p);
    }
  }

  /** A victim whose last re-run passes leaves the residual set. */
  lemma VictimRecovers(c: Config, tests: seq<Test>, overlay: seq<Test>, u: Test)
    requires OneForm(tests, overlay, c.strip) && Id(u, c.strip) != ""
    requires LastWriter(overlay, u.nodeid) == Some(u) && !Failing(u)
    ensures Id(u, c.strip) !in Residual(c, Merge(tests, overlay))
  {
    var merged := Merge(tests, overlay);
    forall p | 0 <= p < |merged| && Id(merged[p], c.strip) == Id(u, c.strip)
      ensures merged[p] == u
    {
      OnlyRecord(tests, overlay, c.strip, u, p);
    }
    MergeSources(tests, overlay);
    IdListed(overlay, u);
    var v := RecordFor(merged, u.nodeid);
    FailureIdsExactly(merged, c.strip, Id(u, c.strip));
  }
}
