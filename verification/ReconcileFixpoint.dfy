/**
 Running the suite under the plugin, reconciling the list, and running it again: the second
 run has no failure left and a second reconciliation has nothing to do.
 */
module ReconcileFixpoint {
  import opened Text
  import opened NodeIds
  import opened KnownFailures
  import opened Reconcile
  import Reports

  /** The collected tests, and which of them pass when they are called. */
  datatype Suite = Suite(collected: seq<string>, passes: string -> bool)

  /** A node ID as pytest reports it: relative to the root, and one line of text. */
  predicate Collectable(id: string) {
    id != "" && Strip(id) == id && id[0] != '#' && Normal(id) && !EndsWith(id, ".py")
  }

  ghost predicate ValidSuite(s: Suite) {
    forall id | id in s.collected :: Collectable(id)
  }

  function ListsOf(lines: seq<string>, flakyLines: seq<string>, crashLines: seq<string>): Lists {
    Lists(Elements(ListEntries(lines)), Elements(ListEntries(flakyLines)), Elements(ListEntries(crashLines)))
  }

  /** A report with one record per collected test. */
  function ReportOf(ids: seq<string>, outcome: string -> string): (tests: seq<Test>)
    ensures |tests| == |ids|
    ensures forall i | 0 <= i < |ids| :: tests[i] == Reports.Test(ids[i], outcome(ids[i]), "")
  {
    seq(|ids|, i requires 0 <= i < |ids| => Reports.Test(ids[i], outcome(ids[i]), ""))
  }

  function Verdict(s: Suite, l: Lists, id: string): string {
    RunOutcome(MarkFor(l, id), s.passes(id))
  }

  function Verdicts(s: Suite, l: Lists): string -> string {
    (id: string) => Verdict(s, l, id)
  }

  /** The report of one run of the suite under the lists. */
  function RunSuite(s: Suite, l: Lists): seq<Test> {
    ReportOf(s.collected, Verdicts(s, l))
  }

  predicate Fails(t: Test) {
    t.outcome == "failed" || t.outcome == "error"
  }

  // ----- Reading a run's report -----

  lemma {:induction false} ReportByKey(ids: seq<string>, outcome: string -> string, key: string -> string)
    requires forall i | 0 <= i < |ids| :: ids[i] != "" && key(ids[i]) == ids[i]
    ensures var m := LastByKey(ReportOf(ids, outcome), key);
            && (forall n :: n in m <==> n in ids)
            && (forall n | n in m :: m[n].outcome == outcome(n))
  {
    if ids != [] {
      var k := |ids| - 1;
      ReportByKey(ids[..k], outcome, key);
      assert ReportOf(ids, outcome)[..k] == ReportOf(ids[..k], outcome);
      assert ids == ids[..k] + [ids[k]];
    }
  }

  // ----- The entries of a rewritten list -----

  lemma EntriesConcat(a: seq<string>, b: seq<string>)
    ensures ListEntries(a + b) == ListEntries(a) + ListEntries(b)
  {
    FlatMapConcat(a, b, EntryOf);
  }

  lemma InEntries(lines: seq<string>, e: string)
    ensures e in ListEntries(lines) <==> exists l | l in lines :: IsEntryLine(l) && Strip(l) == e
  {
    FlatMapMembers(lines, EntryOf, e);
  }

  lemma InKept(lines: seq<string>, drop: set<string>, line: string)
    ensures line in KeepLines(lines, drop) <==> line in lines && Strip(line) !in drop
  {
    FlatMapMembers(lines, Keeper(drop), line);
  }

  lemma KeepEntries(lines: seq<string>, drop: set<string>)
    ensures Elements(ListEntries(KeepLines(lines, drop))) == Elements(ListEntries(lines)) - drop
  {
    forall e ensures e in ListEntries(KeepLines(lines, drop)) <==> e in ListEntries(lines) && e !in drop {
      InEntries(KeepLines(lines, drop), e);
      InEntries(lines, e);
      forall l | l in lines || l in KeepLines(lines, drop)
        ensures l in KeepLines(lines, drop) <==> l in lines && Strip(l) !in drop
      {
        InKept(lines, drop, l);
      }
    }
  }

  lemma TrimEntries(lines: seq<string>)
    ensures ListEntries(TrimBlank(lines)) == ListEntries(lines)
  {
    FlatMapTrim(lines, (l: string) => Strip(l) == "", EntryOf);
  }

  predicate IsEntry(e: string) {
    IsEntryLine(e) && Strip(e) == e
  }

  lemma CleanEntries(lines: seq<string>)
    requires forall e | e in lines :: IsEntry(e)
    ensures ListEntries(lines) == lines
  {
    FlatMapIdentity(lines, EntryOf);
  }

  lemma EntriesClean(lines: seq<string>, e: string)
    requires e in ListEntries(lines)
    ensures IsEntry(e)
  {
    InEntries(lines, e);
    var l :| l in lines && IsEntryLine(l) && Strip(l) == e;
    StripIdempotent(l);
  }

  lemma MarkerIsComment()
    ensures ListEntries(["", MARKER]) == []
  {
    assert MARKER[0] == '#';
    StripFirst(MARKER);
    FlatMapOne("", EntryOf);
    FlatMapOne(MARKER, EntryOf);
    EntriesConcat([""], [MARKER]);
    assert [""] + [MARKER] == ["", MARKER];
  }

  lemma NewEntries(lines: seq<string>, drop: set<string>, added: seq<string>)
    requires forall e | e in Spell(ListStyle(ListEntries(lines)), added) :: IsEntry(e)
    ensures Elements(ListEntries(NewLines(lines, drop, added))) ==
            (Elements(ListEntries(lines)) - drop) + Elements(Spell(ListStyle(ListEntries(lines)), added))
  {
    var kept := KeepLines(lines, drop);
    var spelled := Spell(ListStyle(ListEntries(lines)), added);
    KeepEntries(lines, drop);
    if added == [] {
      assert spelled == [];
    } else {
      TrimEntries(kept);
      MarkerIsComment();
      CleanEntries(spelled);
      EntriesConcat(TrimBlank(kept), ["", MARKER]);
      EntriesConcat(TrimBlank(kept) + ["", MARKER], spelled);
      ElementsConcat(ListEntries(kept), spelled);
    }
  }

  // ----- The spelling of additions -----

  /** No entry stops at the root directory, where it would have an empty normal form. */
  ghost predicate NamedEntries(entries: seq<string>) {
    forall e | e in entries :: Normalize(e) != ""
  }

  lemma SpellingAgrees(entries: seq<string>, id: string)
    requires NamedEntries(entries) && (forall e | e in entries :: IsEntry(e)) && Collectable(id)
    ensures Normalize(ListStyle(entries) + id) == id && IsEntry(ListStyle(entries) + id)
  {
    var style := ListStyle(entries);
    if style == "" {
      assert style + id == id;
    } else {
      var sample := FirstPrefixed(entries);
      NormalExactly(sample);
      RootIsUnnamed(sample);
      StylePrefixAgrees(sample, id);
      StripEnds(sample);
      StripEnds(id);
      StripClean(style + id);
    }
  }

  lemma RootIsUnnamed(e: string)
    requires ROOT in Split(e)
    ensures EndsAtRoot(e) ==> Normalize(e) == ""
  {
  }

  lemma StripEnds(s: string)
    requires s != "" && Strip(s) == s
    ensures !IsSpace(s[0]) && !IsSpace(s[|s| - 1])
  {
    assert |LStrip(s)| == |s|;
  }

  // ----- One run and one reconciliation -----

  /** The lists before a run, what the run reported, and the list after reconciling. */
  datatype Round = Round(suite: Suite, lines: seq<string>, flakyLines: seq<string>, crashLines: seq<string>, prune: bool)
  {
    function Before(): Lists {
      ListsOf(lines, flakyLines, crashLines)
    }

    function Run(): seq<Test> {
      RunSuite(suite, Before())
    }

    function Reconciliation(): Result {
      Reconciled(Run(), lines, flakyLines, prune)
    }

    function After(): Lists {
      ListsOf(Reconciliation().lines, flakyLines, crashLines)
    }

    function Dropped(): set<string> {
      var i := InputOf(Run(), lines, flakyLines);
      Reconcile.Dropped(i, Elements(Reconciliation().removed) + Elements(Reconciliation().pruned))
    }

    /** The next round: the same suite under the reconciled list. */
    function Next(): Round {
      this.(lines := Reconciliation().lines)
    }
  }

  ghost predicate ValidRound(r: Round) {
    ValidSuite(r.suite) && NamedEntries(ListEntries(r.lines))
  }

  predicate Listed(l: Lists, id: string) {
    id in NormalForms(l.failing)
  }

  predicate Flaky(l: Lists, id: string) {
    id in NormalForms(l.flaky)
  }

  /** The same test is listed under two spellings. */
  predicate Ambiguous(entries: set<string>, id: string) {
    exists a, b | a in entries && b in entries :: a != b && Normalize(a) == id && Normalize(b) == id
  }

  /** A normal ID's outcome, in terms of the normal forms of the lists. */
  lemma VerdictCases(s: Suite, l: Lists, id: string)
    requires Normal(id)
    ensures Verdict(s, l, id) ==
            if Crashes(l.crash, id) then "skipped"
            else if Listed(l, id) then if s.passes(id) then "failed" else "xfailed"
            else if Flaky(l, id) then if s.passes(id) then "xpassed" else "xfailed"
            else if s.passes(id) then "passed" else "failed"
  {
    LookupAgrees(l.failing, id);
    LookupAgrees(l.flaky, id);
  }

  /** The buckets of a reconciliation are the classes of the recorded names. */
  lemma Buckets(tests: seq<Test>, lines: seq<string>, flakyLines: seq<string>, prune: bool, id: string)
    ensures var i, x := InputOf(tests, lines, flakyLines), Reconciled(tests, lines, flakyLines, prune);
            && (id in x.added <==> id in i.outcomes && ClassOf(i, id) == Added)
            && (id in x.removed <==> id in i.outcomes && ClassOf(i, id) == Removed)
            && (id in x.pruned <==> prune && id in i.byNorm && id !in i.outcomes)
  {
    UncollectedExactly(ListEntries(lines), Outcomes(tests), id);
    var names := Names(tests);
    assert id in names <==> id in Elements(names);
  }

  lemma RunRecord(s: Suite, l: Lists, id: string)
    requires ValidSuite(s)
    ensures id in Outcomes(RunSuite(s, l)) <==> id in s.collected
    ensures id in s.collected ==> Outcomes(RunSuite(s, l))[id].outcome == Verdict(s, l, id)
  {
    assert forall i | 0 <= i < |s.collected| :: Collectable(s.collected[i]);
    ReportByKey(s.collected, Verdicts(s, l), Normalize);
  }

  lemma ClassCases(t: Test, listed: bool, flaky: bool)
    requires t.outcome != "error"
    ensures Classify(t, listed, flaky) == Added <==> t.outcome == "failed" && !listed && !flaky
    ensures Classify(t, listed, flaky) == Removed <==> t.outcome == "failed" && listed
  {
  }

  /** How a collected test is classified. */
  lemma Classes(r: Round, id: string)
    requires ValidRound(r) && id in r.suite.collected
    ensures var l, fails := r.Before(), Verdict(r.suite, r.Before(), id) == "failed";
            && (id in r.Reconciliation().added <==> fails && !Listed(l, id) && !Flaky(l, id))
            && (id in r.Reconciliation().removed <==> fails && Listed(l, id))
            && id !in r.Reconciliation().pruned
  {
    var l := r.Before();
    Buckets(r.Run(), r.lines, r.flakyLines, r.prune, id);
    RunRecord(r.suite, l, id);
    VerdictCases(r.suite, l, id);
    ListedByNorm(ListEntries(r.lines), id);
    ClassCases(Outcomes(r.Run())[id], Listed(l, id), Flaky(l, id));
  }

  /** Only collected tests are added or removed. */
  lemma OnlyCollected(r: Round, id: string)
    requires ValidRound(r) && (id in r.Reconciliation().added || id in r.Reconciliation().removed)
    ensures id in r.suite.collected
  {
    Buckets(r.Run(), r.lines, r.flakyLines, r.prune, id);
    RunRecord(r.suite, r.Before(), id);
  }

  lemma ListedByNorm(entries: seq<string>, id: string)
    ensures id in EntryByNorm(entries) <==> id in NormalForms(Elements(entries))
  {
    if id in EntryByNorm(entries) {
      assert EntryByNorm(entries)[id] in Elements(entries);
    }
    if id in NormalForms(Elements(entries)) {
      var e :| e in Elements(entries) && Normalize(e) == id;
      assert e in entries;
    }
  }

  /** The entries of the reconciled list. */
  lemma EntriesAfter(r: Round)
    requires ValidRound(r)
    ensures r.After().failing == (r.Before().failing - r.Dropped())
                                 + Elements(Spell(ListStyle(ListEntries(r.lines)), r.Reconciliation().added))
    ensures forall n | n in r.Reconciliation().added :: Normalize(ListStyle(ListEntries(r.lines)) + n) == n
  {
    var entries, added := ListEntries(r.lines), r.Reconciliation().added;
    var style := ListStyle(entries);
    forall e | e in entries ensures IsEntry(e) {
      EntriesClean(r.lines, e);
    }
    forall n | n in added ensures Normalize(style + n) == n && IsEntry(style + n) {
      OnlyCollected(r, n);
      SpellingAgrees(entries, n);
    }
    NewEntries(r.lines, r.Dropped(), added);
  }

  lemma InNormalForms(entries: set<string>, e: string)
    requires e in entries
    ensures Normalize(e) in NormalForms(entries)
  {
  }

  /** What is dropped under a normal form is the entry recorded for it, if that form is to go. */
  lemma DroppedOf(i: Input, names: set<string>, entries: seq<string>, e: string)
    requires i.byNorm == EntryByNorm(entries) && e in entries
    ensures e in Dropped(i, names) <==> Normalize(e) in names && i.byNorm[Normalize(e)] == e
  {
  }

  lemma NormalFormsUnion(a: set<string>, b: set<string>, id: string)
    ensures id in NormalForms(a + b) <==> id in NormalForms(a) || id in NormalForms(b)
  {
  }

  lemma SpelledForms(style: string, added: seq<string>, id: string)
    requires forall n | n in added :: Normalize(style + n) == n
    ensures id in NormalForms(Elements(Spell(style, added))) <==> id in added
  {
    var spelled := Spell(style, added);
    if id in NormalForms(Elements(spelled)) {
      var k :| 0 <= k < |added| && Normalize(spelled[k]) == id;
      assert added[k] in added;
    }
    if id in added {
      var k :| 0 <= k < |added| && added[k] == id;
      assert spelled[k] == style + id;
      InNormalForms(Elements(spelled), spelled[k]);
    }
  }

  /** Dropping one entry unlists its test unless another spelling of it remains. */
  lemma KeptForms(before: set<string>, dropped: set<string>, id: string, gone: bool, entry: string)
    requires forall e | e in before && Normalize(e) == id :: e in dropped <==> gone && e == entry
    requires gone ==> entry in before && Normalize(entry) == id
    ensures id in NormalForms(before - dropped) <==> id in NormalForms(before) && (gone ==> Ambiguous(before, id))
  {
    if id in NormalForms(before - dropped) {
      var e :| e in before - dropped && Normalize(e) == id;
      InNormalForms(before, e);
      assert gone ==> e != entry;
    }
    if id in NormalForms(before) && (gone ==> Ambiguous(before, id)) {
      var e :| e in before && Normalize(e) == id && (gone ==> e != entry);
      InNormalForms(before - dropped, e);
    }
  }

  /** The entry recorded for a recorded test is the only spelling of it that can go. */
  lemma DroppedRecorded(i: Input, x: Result, entries: seq<string>, e: string)
    requires i.byNorm == EntryByNorm(entries) && e in entries && Normalize(e) !in x.pruned
    ensures e in Dropped(i, Elements(x.removed) + Elements(x.pruned)) <==>
            Normalize(e) in x.removed && i.byNorm[Normalize(e)] == e
  {
    var removed, pruned := Elements(x.removed), Elements(x.pruned);
    assert Normalize(e) !in pruned && (Normalize(e) in removed <==> Normalize(e) in x.removed);
    DroppedOf(i, removed + pruned, entries, e);
  }

  lemma RemovedEntry(r: Round, x: Result, entries: seq<string>, id: string)
    requires ValidRound(r) && id in r.suite.collected && x == r.Reconciliation() && entries == ListEntries(r.lines)
    ensures id !in x.pruned
    ensures id in EntryByNorm(entries) <==> Listed(r.Before(), id)
    ensures id in x.removed ==> id in EntryByNorm(entries)
  {
    Classes(r, id);
    ListedByNorm(entries, id);
  }

  lemma KeptListed(r: Round, id: string)
    requires ValidRound(r) && id in r.suite.collected
    ensures id in NormalForms(r.Before().failing - r.Dropped()) <==>
            Listed(r.Before(), id) && (id in r.Reconciliation().removed ==> Ambiguous(r.Before().failing, id))
  {
    var x, entries, before := r.Reconciliation(), ListEntries(r.lines), r.Before().failing;
    RemovedEntry(r, x, entries, id);
    forall e | e in before && Normalize(e) == id
      ensures e in r.Dropped() <==> id in x.removed && e == EntryByNorm(entries)[id]
    {
      DroppedRecorded(InputOf(r.Run(), r.lines, r.flakyLines), x, entries, e);
    }
    var entry := if id in EntryByNorm(entries) then EntryByNorm(entries)[id] else "";
    KeptForms(before, r.Dropped(), id, id in x.removed, entry);
  }

  /** Which collected tests the reconciled list names. */
  lemma ListedAfter(r: Round, id: string)
    requires ValidRound(r) && id in r.suite.collected
    ensures Listed(r.After(), id) <==>
            || id in r.Reconciliation().added
            || (Listed(r.Before(), id) && (id in r.Reconciliation().removed ==> Ambiguous(r.Before().failing, id)))
  {
    var style, added := ListStyle(ListEntries(r.lines)), r.Reconciliation().added;
    EntriesAfter(r);
    KeptListed(r, id);
    SpelledForms(style, added, id);
    NormalFormsUnion(r.Before().failing - r.Dropped(), Elements(Spell(style, added)), id);
  }

  // ----- The second run -----

  ghost predicate NoFailures(tests: seq<Test>) {
    forall t | t in tests :: !Fails(t)
  }

  /** No test that runs and passes is listed under two spellings. */
  ghost predicate PassesListedOnce(r: Round) {
    forall id | id in r.suite.collected && !Crashes(r.Before().crash, id) && r.suite.passes(id) ::
      !Ambiguous(r.Before().failing, id)
  }

  lemma SecondVerdict(r: Round, id: string)
    requires ValidRound(r) && id in r.suite.collected
    ensures Verdict(r.suite, r.After(), id) == "failed" <==>
            !Crashes(r.Before().crash, id) && r.suite.passes(id) && Ambiguous(r.Before().failing, id)
    ensures Verdict(r.suite, r.After(), id) != "error"
  {
    ListedAfter(r, id);
    Classes(r, id);
    VerdictCases(r.suite, r.Before(), id);
    VerdictCases(r.suite, r.After(), id);
    if Ambiguous(r.Before().failing, id) {
      var a :| a in r.Before().failing && Normalize(a) == id;
      InNormalForms(r.Before().failing, a);
    }
  }

  /**
   After one reconciliation the suite runs without a failure, exactly when no passing test was
   listed under two spellings: only the last spelling of a name is dropped.
   */
  lemma SecondRunExactly(r: Round)
    requires ValidRound(r)
    ensures NoFailures(r.Next().Run()) <==> PassesListedOnce(r)
  {
    var tests, ids := r.Next().Run(), r.suite.collected;
    assert r.Next().Before() == r.After();
    forall i | 0 <= i < |ids|
      ensures Fails(tests[i]) <==> !Crashes(r.Before().crash, ids[i]) && r.suite.passes(ids[i])
                                   && Ambiguous(r.Before().failing, ids[i])
    {
      SecondVerdict(r, ids[i]);
      assert tests[i].outcome == Verdicts(r.suite, r.After())(ids[i]);
    }
    if NoFailures(tests) {
      forall id | id in ids && !Crashes(r.Before().crash, id) && r.suite.passes(id)
        ensures !Ambiguous(r.Before().failing, id)
      {
        var i :| 0 <= i < |ids| && ids[i] == id;
        assert tests[i] in tests;
      }
    }
  }

  // ----- The second reconciliation -----

  ghost predicate DistinctForms(entries: set<string>) {
    forall id :: !Ambiguous(entries, id)
  }

  lemma SpelledFrom(style: string, added: seq<string>, e: string) returns (n: string)
    requires e in Spell(style, added)
    ensures n in added && e == style + n
  {
    var k :| 0 <= k < |added| && e == Spell(style, added)[k];
    n := added[k];
  }

  lemma AdditionCollected(r: Round, e: string)
    requires ValidRound(r) && e in Spell(ListStyle(ListEntries(r.lines)), r.Reconciliation().added)
    ensures Normalize(e) in r.suite.collected
  {
    var n := SpelledFrom(ListStyle(ListEntries(r.lines)), r.Reconciliation().added, e);
    EntriesAfter(r);
    OnlyCollected(r, n);
  }

  lemma AdditionNamesATest(r: Round, e: string)
    requires ValidRound(r) && e in Spell(ListStyle(ListEntries(r.lines)), r.Reconciliation().added)
    ensures Normalize(e) != ""
  {
    AdditionCollected(r, e);
  }

  lemma NextIsValid(r: Round)
    requires ValidRound(r)
    ensures ValidRound(r.Next())
  {
    EntriesAfter(r);
    forall e | e in ListEntries(r.Next().lines) ensures Normalize(e) != "" {
      assert e in r.After().failing;
      if e !in r.Before().failing {
        AdditionNamesATest(r, e);
      }
    }
  }

  lemma KeepAll(lines: seq<string>)
    ensures KeepLines(lines, {}) == lines
  {
    FlatMapIdentity(lines, Keeper({}));
  }

  lemma KeptEntryCollected(r: Round, e: string)
    requires ValidRound(r) && r.prune && !Ambiguous(r.Before().failing, Normalize(e))
    requires e in r.Before().failing && e !in r.Dropped()
    ensures Normalize(e) in r.suite.collected
  {
    var entries, x := ListEntries(r.lines), r.Reconciliation();
    var id := Normalize(e);
    var i := InputOf(r.Run(), r.lines, r.flakyLines);
    DroppedOf(i, Elements(x.removed) + Elements(x.pruned), entries, e);
    RunRecord(r.suite, r.Before(), id);
    Buckets(r.Run(), r.lines, r.flakyLines, r.prune, id);
    assert id !in r.suite.collected ==> id in x.pruned;
    assert i.byNorm[id] in r.Before().failing && Normalize(i.byNorm[id]) == id;
  }

  /** Pruning leaves only entries whose tests were collected. */
  lemma PrunedEntriesCollected(r: Round, e: string)
    requires ValidRound(r) && r.prune && DistinctForms(r.Before().failing) && e in r.After().failing
    ensures Normalize(e) in r.suite.collected
  {
    EntriesAfter(r);
    if e in r.Before().failing && e !in r.Dropped() {
      assert !Ambiguous(r.Before().failing, Normalize(e));
      KeptEntryCollected(r, e);
    } else {
      AdditionCollected(r, e);
    }
  }

  lemma NothingToChange(r: Round, id: string)
    requires ValidRound(r) && !Ambiguous(r.Before().failing, id)
    ensures id !in r.Next().Reconciliation().added && id !in r.Next().Reconciliation().removed
  {
    var q := r.Next();
    NextIsValid(r);
    assert q.Before() == r.After();
    if id in q.suite.collected {
      SecondVerdict(r, id);
      Classes(q, id);
    } else if id in q.Reconciliation().added || id in q.Reconciliation().removed {
      OnlyCollected(q, id);
    }
  }

  lemma NothingToPrune(r: Round, id: string)
    requires ValidRound(r) && DistinctForms(r.Before().failing)
    ensures id !in r.Next().Reconciliation().pruned
  {
    var q := r.Next();
    NextIsValid(r);
    Buckets(q.Run(), q.lines, q.flakyLines, q.prune, id);
    RunRecord(q.suite, q.Before(), id);
    var byNorm := EntryByNorm(ListEntries(q.lines));
    if id in byNorm && q.prune {
      assert byNorm[id] in r.After().failing;
      PrunedEntriesCollected(r, byNorm[id]);
    }
  }

  /**
   The fixpoint: with distinct normal forms on the list, the run after a reconciliation has no
   failure, and reconciling again changes nothing.
   */
  lemma Fixpoint(r: Round)
    requires ValidRound(r) && DistinctForms(r.Before().failing)
    ensures NoFailures(r.Next().Run())
    ensures var again := r.Next().Reconciliation();
            again.added == [] && again.removed == [] && again.pruned == [] && again.lines == r.Next().lines
  {
    SecondRunExactly(r);
    var q := r.Next();
    var again := q.Reconciliation();
    forall id ensures id !in again.added && id !in again.removed && id !in again.pruned {
      NothingToChange(r, id);
      NothingToPrune(r, id);
    }
    NoElements(again.added);
    NoElements(again.removed);
    NoElements(again.pruned);
    UnchangedLines(q);
  }

  lemma UnchangedLines(q: Round)
    requires var x := q.Reconciliation(); x.added == [] && x.removed == [] && x.pruned == []
    ensures q.Reconciliation().lines == q.lines
  {
    var i := InputOf(q.Run(), q.lines, q.flakyLines);
    assert Dropped(i, Elements<string>([]) + Elements<string>([])) == {};
    KeepAll(q.lines);
  }

  // ----- The reconciled list still loads -----

  /** The additions never collide with the flaky or the crash list. */
  lemma StillLoads(r: Round)
    requires ValidRound(r) && !Overlaps(r.Before())
    ensures !Overlaps(r.After())
  {
    EntriesAfter(r);
    var l, x := r.Before(), r.Reconciliation();
    var spelled := Spell(ListStyle(ListEntries(r.lines)), x.added);
    forall k | 0 <= k < |x.added| ensures spelled[k] !in l.flaky && spelled[k] !in l.crash {
      assert x.added[k] in x.added;
      AdditionIsNew(r, spelled[k], x.added[k]);
    }
    NoNewOverlap(l, r.After().failing, Elements(spelled));
  }

  lemma NoNewOverlap(l: Lists, failing: set<string>, more: set<string>)
    requires !Overlaps(l) && failing <= l.failing + more && more !! l.flaky && more !! l.crash
    ensures !Overlaps(l.(failing := failing))
  {
    assert failing * l.flaky <= l.failing * l.flaky;
    assert l.crash * (failing + l.flaky) <= l.crash * (l.failing + l.flaky);
  }

  lemma AdditionIsNew(r: Round, e: string, id: string)
    requires ValidRound(r) && id in r.Reconciliation().added && Normalize(e) == id
    ensures e !in r.Before().flaky && e !in r.Before().crash
  {
    var l := r.Before();
    OnlyCollected(r, id);
    Classes(r, id);
    VerdictCases(r.suite, l, id);
    if e in l.flaky {
      InNormalForms(l.flaky, e);
    }
    if e in l.crash {
      CrashEntrySkips(l, e);
    }
  }

  // ----- Why the spellings must be distinct -----

  lemma RootIsOnePart()
    ensures Split(ROOT) == [ROOT]
  {
    assert '/' !in ROOT;
    SplitWord(ROOT);
  }

  lemma TwoSpellings(root: string, id: string)
    requires Normal(id) && root == ROOT
    ensures Normalize(root + "/" + id) == id && root + "/" + id != id
  {
    NormalExactly(id);
    RootIsOnePart();
    SplitConcat(root, id);
    AfterRootConcat([root], Split(id));
    assert root in [root] + Split(id);
    JoinSplit(id);
    assert |root + "/" + id| > |id|;
  }

  /** A passing test listed under both spellings is still reported as failed after reconciling. */
  lemma TwoSpellingsStayRed(r: Round, id: string)
    requires ValidRound(r) && id in r.suite.collected && r.suite.passes(id) && !Crashes(r.Before().crash, id)
    requires id in r.Before().failing && ROOT + "/" + id in r.Before().failing
    ensures !NoFailures(r.Next().Run())
  {
    TwoSpellings(ROOT, id);
    assert Ambiguous(r.Before().failing, id);
    SecondRunExactly(r);
  }
}
