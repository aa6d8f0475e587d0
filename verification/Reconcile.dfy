/**
 Folding the outcome of a gate run back into the known-failures list: new failures are added,
 entries whose test now passes are dropped, and everything else is left as it was written.
 */
module Reconcile {
  import opened Text
  import opened NodeIds
  import opened KnownFailures
  import Reports

  type Test = Reports.Test

  const MARKER := "#" + " --- added by functional_gate.py reconcile ---"

  /** The last record for each key of its ID. */
  function LastByKey(tests: seq<Test>, key: string -> string): map<string, Test> {
    if tests == [] then map[]
    else
      var n := |tests| - 1;
      var before := LastByKey(tests[..n], key);
      if tests[n].nodeid == "" then before else before[key(tests[n].nodeid) := tests[n]]
  }

  /** The last record of each normal form. */
  function Outcomes(tests: seq<Test>): map<string, Test> {
    LastByKey(tests, Normalize)
  }

  /** The last entry written for each key. */
  function LastEntry(entries: seq<string>, key: string -> string): (m: map<string, string>)
    ensures forall n | n in m :: m[n] in entries && key(m[n]) == n
    ensures forall e | e in entries :: key(e) in m
  {
    if entries == [] then map[]
    else
      var n := |entries| - 1;
      assert entries == entries[..n] + [entries[n]];
      LastEntry(entries[..n], key)[key(entries[n]) := entries[n]]
  }

  /** The last entry written for each normal form. */
  function EntryByNorm(entries: seq<string>): (m: map<string, string>)
    ensures forall n | n in m :: m[n] in entries && Normalize(m[n]) == n
    ensures forall e | e in entries :: Normalize(e) in m
  {
    LastEntry(entries, Normalize)
  }

  datatype Class = Added | Removed | KeptErrored | SkippedFlaky | FlakyPass | Ignored

  /** What a recorded outcome means for the list. */
  function Classify(t: Test, listed: bool, flaky: bool): Class {
    if t.outcome != "failed" && t.outcome != "error" then
      if t.outcome == "xpassed" && flaky then FlakyPass else Ignored
    else if listed then
      if t.outcome == "error" && !Contains(t.detail, "XPASS") then KeptErrored else Removed
    else if flaky then SkippedFlaky
    else Added
  }

  /** The inputs of one reconciliation after reading its files. */
  datatype Input = Input(outcomes: map<string, Test>, byNorm: map<string, string>, flaky: set<string>)

  function ClassOf(i: Input, n: string): Class
    requires n in i.outcomes
  {
    Classify(i.outcomes[n], n in i.byNorm, n in i.flaky)
  }

  /** The names of a class among a list of recorded names, in the list's order. */
  function Select(i: Input, names: seq<string>, c: Class): (r: seq<string>)
    requires forall n | n in names :: n in i.outcomes
    ensures forall n :: n in r <==> n in names && ClassOf(i, n) == c
  {
    if names == [] then []
    else
      var k := |names| - 1;
      var before := Select(i, names[..k], c);
      assert names == names[..k] + [names[k]];
      if ClassOf(i, names[k]) == c then before + [names[k]] else before
  }

  function Keeper(drop: set<string>): string -> seq<string> {
    (l: string) => if Strip(l) in drop then [] else [l]
  }

  function KeepLines(lines: seq<string>, drop: set<string>): seq<string> {
    FlatMap(lines, Keeper(drop))
  }

  function TrimBlank(lines: seq<string>): seq<string> {
    TrimEnd(lines, (l: string) => Strip(l) == "")
  }

  function PrefixedCount(entries: seq<string>): nat {
    if entries == [] then 0
    else PrefixedCount(entries[..|entries| - 1]) + if Normal(entries[|entries| - 1]) then 0 else 1
  }

  function FirstPrefixed(entries: seq<string>): (e: string)
    requires PrefixedCount(entries) > 0
    ensures e in entries && !Normal(e)
  {
    var n := |entries| - 1;
    if PrefixedCount(entries[..n]) > 0 then FirstPrefixed(entries[..n]) else entries[n]
  }

  /** The spelling of new entries: that of the first prefixed entry when most entries have one. */
  function ListStyle(entries: seq<string>): string {
    if 2 * PrefixedCount(entries) > |entries| then StylePrefix(FirstPrefixed(entries)) else ""
  }

  function Spell(style: string, names: seq<string>): (r: seq<string>)
    ensures |r| == |names| && forall i | 0 <= i < |names| :: r[i] == style + names[i]
  {
    seq(|names|, i requires 0 <= i < |names| => style + names[i])
  }

  function NewLines(lines: seq<string>, drop: set<string>, added: seq<string>): seq<string> {
    var kept := KeepLines(lines, drop);
    if added == [] then kept
    else TrimBlank(kept) + ["", MARKER] + Spell(ListStyle(ListEntries(lines)), added)
  }

  datatype Result = Result(
    lines: seq<string>,
    added: seq<string>, removed: seq<string>, keptErrored: seq<string>, skippedFlaky: seq<string>,
    flakyPasses: seq<string>, uncollected: seq<string>, pruned: seq<string>)

  function InputOf(tests: seq<Test>, lines: seq<string>, flakyLines: seq<string>): Input {
    Input(Outcomes(tests), EntryByNorm(ListEntries(lines)), NormalForms(Elements(ListEntries(flakyLines))))
  }

  /** The recorded names in ascending order. */
  function Names(tests: seq<Test>): (names: seq<string>)
    ensures Ascending(names) && Elements(names) == Outcomes(tests).Keys
  {
    if tests == [] then []
    else
      var n := |tests| - 1;
      var before := Names(tests[..n]);
      if tests[n].nodeid == "" then before else Insert(Normalize(tests[n].nodeid), before)
  }

  function Dropped(i: Input, names: set<string>): set<string> {
    set n | n in names && n in i.byNorm :: i.byNorm[n]
  }

  /** The normal forms on the list whose test was not recorded, in the order they are first listed. */
  function Uncollected(entries: seq<string>, outcomes: map<string, Test>): (r: seq<string>)
    ensures forall i, k | 0 <= i < k < |r| :: r[i] != r[k]
  {
    if entries == [] then []
    else
      var k := |entries| - 1;
      var before, n := Uncollected(entries[..k], outcomes), Normalize(entries[k]);
      if n in outcomes || n in before then before else before + [n]
  }

  lemma {:induction false} UncollectedExactly(entries: seq<string>, outcomes: map<string, Test>, n: string)
    ensures n in Uncollected(entries, outcomes) <==> n in EntryByNorm(entries) && n !in outcomes
  {
    if entries != [] {
      UncollectedExactly(entries[..|entries| - 1], outcomes, n);
    }
  }

  function Reconciled(tests: seq<Test>, lines: seq<string>, flakyLines: seq<string>, prune: bool): Result {
    var i := InputOf(tests, lines, flakyLines);
    var names := Names(tests);
    assert forall n | n in names :: n in Elements(names);
    var added, removed := Select(i, names, Added), Select(i, names, Removed);
    var uncollected := Uncollected(ListEntries(lines), i.outcomes);
    var pruned := if prune then uncollected else [];
    Result(NewLines(lines, Dropped(i, Elements(removed) + Elements(pruned)), added),
           added, removed, Select(i, names, KeptErrored), Select(i, names, SkippedFlaky),
           Select(i, names, FlakyPass), uncollected, pruned)
  }

  // ----- The reconciliation as the tool runs it -----

  method ReadReport(tests: seq<Test>) returns (outcomes: map<string, Test>)
    ensures outcomes == Outcomes(tests)
  {
    outcomes := map[];
    for k := 0 to |tests|
      invariant outcomes == Outcomes(tests[..k])
    {
      assert tests[..k + 1][..k] == tests[..k];
      if tests[k].nodeid != "" {
        outcomes := outcomes[Normalize(tests[k].nodeid) := tests[k]];
      }
    }
    assert tests[..|tests|] == tests;
  }

  method ReadFlaky(lines: seq<string>) returns (flaky: set<string>)
    ensures flaky == NormalForms(Elements(ListEntries(lines)))
  {
    flaky := {};
    for k := 0 to |lines|
      invariant flaky == NormalForms(Elements(ListEntries(lines[..k])))
    {
      assert lines[..k + 1] == lines[..k] + [lines[k]];
      FlatMapSnoc(lines[..k], lines[k], EntryOf);
      if IsEntryLine(lines[k]) {
        NormalFormsAdd(ListEntries(lines[..k]), Strip(lines[k]));
        flaky := flaky + {Normalize(Strip(lines[k]))};
      }
    }
    assert lines[..|lines|] == lines;
  }

  lemma NormalFormsAdd(entries: seq<string>, e: string)
    ensures NormalForms(Elements(entries + [e])) == NormalForms(Elements(entries)) + {Normalize(e)}
  {
    ElementsConcat(entries, [e]);
    assert Elements([e]) == {e};
  }

  lemma SelectSnoc(i: Input, names: seq<string>, n: string, c: Class)
    requires n in i.outcomes && forall m | m in names :: m in i.outcomes
    ensures Select(i, names + [n], c) == Select(i, names, c) + if ClassOf(i, n) == c then [n] else []
  {
    assert (names + [n])[..|names|] == names;
  }

  /** Sorts the recorded names into the classes, in one pass. */
  method ClassifyAll(i: Input, names: seq<string>)
    returns (added: seq<string>, removed: seq<string>, keptErrored: seq<string>, skippedFlaky: seq<string>,
             flakyPasses: seq<string>)
    requires forall n | n in names :: n in i.outcomes
    ensures added == Select(i, names, Added) && removed == Select(i, names, Removed)
    ensures keptErrored == Select(i, names, KeptErrored) && skippedFlaky == Select(i, names, SkippedFlaky)
    ensures flakyPasses == Select(i, names, FlakyPass)
  {
    added, removed, keptErrored, skippedFlaky, flakyPasses := [], [], [], [], [];
    for k := 0 to |names|
      invariant added == Select(i, names[..k], Added) && removed == Select(i, names[..k], Removed)
      invariant keptErrored == Select(i, names[..k], KeptErrored)
      invariant skippedFlaky == Select(i, names[..k], SkippedFlaky)
      invariant flakyPasses == Select(i, names[..k], FlakyPass)
    {
      var n := names[k];
      assert names[..k + 1] == names[..k] + [n];
      forall c {
        SelectSnoc(i, names[..k], n, c);
      }
      match ClassOf(i, n)
      case Added => added := added + [n];
      case Removed => removed := removed + [n];
      case KeptErrored => keptErrored := keptErrored + [n];
      case SkippedFlaky => skippedFlaky := skippedFlaky + [n];
      case FlakyPass => flakyPasses := flakyPasses + [n];
      case Ignored =>
    }
    assert names[..|names|] == names;
  }

  method ReconcileFailingList(tests: seq<Test>, lines: seq<string>, flakyLines: seq<string>, prune: bool)
    returns (r: Result)
    ensures r == Reconciled(tests, lines, flakyLines, prune)
  {
    var outcomes := ReadReport(tests);
    var entries := ListEntries(lines);
    var flaky := ReadFlaky(flakyLines);
    var i := Input(outcomes, EntryByNorm(entries), flaky);
    var names := Names(tests);
    assert forall n | n in names :: n in Elements(names);
    var added, removed, keptErrored, skippedFlaky, flakyPasses := ClassifyAll(i, names);
    var uncollected := Uncollected(entries, outcomes);
    var pruned := if prune then uncollected else [];
    var drop := Dropped(i, Elements(removed) + Elements(pruned));
    r := Result(NewLines(lines, drop, added), added, removed, keptErrored, skippedFlaky, flakyPasses,
                uncollected, pruned);
  }
}
