/**
 A whole split pipeline: the parallel legs slice what they collected, run and gate their
 slices, and publish what they collected for the cross-leg check.  When every gate is green
 and the check reports no problem, every collected test has passed somewhere.
 */
module SplitGate {
  import opened Text
  import opened Reports
  import opened Splitting
  import opened RecoverGate
  import Options

  /** One parallel leg: what it collected, its first report, what each re-run left, and its limits. */
  datatype Leg = Leg(run: Run, report: Report, reruns: seq<Rerun>, transientLimit: int, missingLimit: int)

  /** The leg gates against the slice it was assigned. */
  function Gate(l: Leg, n: nat, prefix: string): Config
    requires l.run.split < n
  {
    Config(prefix, l.transientLimit, l.missingLimit, ExpectedIds(Lines(Slice(l.run, n, prefix, prefix)), prefix))
  }

  function Final(l: Leg, n: nat, prefix: string): seq<Test>
    requires l.run.split < n
  {
    Recovered(Gate(l, n, prefix), l.report.tests, l.reruns)
  }

  /** What exit code zero of a leg's gate means. */
  ghost predicate Green(l: Leg, n: nat, prefix: string) {
    && l.run.split < n
    && Gateable(true, Options.Some(l.report), Lines(Slice(l.run, n, prefix, prefix)), prefix)
    && Clean(Gate(l, n, prefix), Final(l, n, prefix))
  }

  /** The gate a leg's script ends with. */
  method GateLeg(l: Leg, n: nat, prefix: string) returns (code: int)
    requires l.run.split < n
    ensures code == 0 <==> Green(l, n, prefix)
  {
    var slice := Lines(Slice(l.run, n, prefix, prefix));
    var final;
    code, final :=
      RecoverAndGate(true, Options.Some(l.report), slice, prefix, l.transientLimit, l.missingLimit, l.reruns);
  }

  function Runs(legs: set<Leg>): set<Run> {
    set l | l in legs :: l.run
  }

  /** A prefix that a line of a node list keeps: no space and no comment mark in front. */
  predicate KeptByLines(prefix: string) {
    prefix != "" ==> !IsSpace(prefix[0]) && prefix[0] != '#'
  }

  lemma StripHasNoSpace(s: string)
    requires Strip(s) != ""
    ensures !IsSpace(Strip(s)[0]) && !IsSpace(Strip(s)[|Strip(s)| - 1])
  {
    assert Strip(s)[0] == LStrip(s)[0];
  }

  lemma UniverseOrigin(manifest: seq<string>, prefix: string, id: string) returns (line: string)
    requires id in Universe(manifest, prefix)
    ensures IsNodeLine(line) && id == Without(Strip(line), prefix)
  {
    var ids := ManifestIds(manifest);
    assert id in Elements(Universe(manifest, prefix));
    StripElements(ids, prefix);
    var x :| x in Elements(ids) && id == Without(x, prefix);
    ManifestMembers(manifest, x);
    line :| line in manifest && IsNodeLine(line) && x == Strip(line);
  }

  lemma IdInUniverse(lines: seq<string>, prefix: string, line: string)
    requires line in lines && IsNodeLine(line)
    ensures Without(Strip(line), prefix) in Universe(lines, prefix)
  {
    ManifestMembers(lines, Strip(line));
    StripElements(ManifestIds(lines), prefix);
    assert Strip(line) in Elements(ManifestIds(lines));
    assert Without(Strip(line), prefix) in Elements(Universe(lines, prefix));
  }

  /** A text without white space around it that names a node. */
  predicate IsNode(x: string) {
    x != "" && !IsSpace(x[0]) && !IsSpace(x[|x| - 1]) && x[0] != '#' && Contains(x, "::")
  }

  lemma NodeReads(x: string)
    requires IsNode(x)
    ensures Strip(x) == x && IsNodeLine(x)
  {
    StripClean(x);
  }

  lemma PrefixedIsNode(x: string, prefix: string)
    requires KeptByLines(prefix) && IsNode(x)
    ensures IsNode(prefix + x)
  {
    var whole := prefix + x;
    assert whole[0] == if prefix == "" then x[0] else prefix[0];
    assert whole[|whole| - 1] == x[|x| - 1];
    assert whole[|prefix|..|whole|] == x;
    ContainsInside(whole, |prefix|, |whole|, "::");
  }

  lemma WithoutPrefix(x: string, prefix: string, id: string)
    requires id == Without(x, prefix)
    ensures prefix + id == x || id == x
    ensures Without(prefix + id, prefix) == id
  {
    assert (prefix + id)[|prefix|..] == id;
  }

  /** Writing the prefix before a collected ID gives a line that reads back as that ID. */
  lemma LineReadsBack(line: string, prefix: string, id: string)
    requires KeptByLines(prefix) && IsNodeLine(line) && id == Without(Strip(line), prefix)
    ensures IsNodeLine(prefix + id) && Strip(prefix + id) == prefix + id && Without(prefix + id, prefix) == id
  {
    var x := Strip(line);
    StripHasNoSpace(line);
    WithoutPrefix(x, prefix, id);
    if id == x {
      PrefixedIsNode(x, prefix);
    }
    NodeReads(prefix + id);
  }

  /** A leg's slice, read back by its gate, assigns every test the leg was given. */
  lemma SliceIsAssigned(manifest: seq<string>, slice: seq<string>, prefix: string, id: string)
    requires KeptByLines(prefix) && id in Universe(manifest, prefix) && prefix + id in slice
    ensures id in Universe(slice, prefix)
  {
    var line := UniverseOrigin(manifest, prefix, id);
    LineReadsBack(line, prefix, id);
    IdInUniverse(slice, prefix, prefix + id);
  }

  lemma GreenLegPasses(l: Leg, n: nat, prefix: string, id: string) returns (pass: Test)
    requires Green(l, n, prefix) && KeptByLines(prefix)
    requires id in Universe(l.run.manifest, prefix) && prefix + id in Slice(l.run, n, prefix, prefix)
    ensures id != "" && Seen(pass, l.report.tests, l.reruns) && Id(pass, prefix) == id && !Failing(pass)
  {
    var c := Gate(l, n, prefix);
    SliceIsAssigned(l.run.manifest, Slice(l.run, n, prefix, prefix), prefix, id);
    assert id in c.expected;
    assert id in RecordedIds(Final(l, n, prefix), prefix);
    pass := GreenRestsOnAPass(c, l.report.tests, l.reruns, id);
  }

  /**
   If every leg's gate is green and the cross-leg check accepts, then each test that any leg
   collected belongs to one split, some leg of that split has executed it without a failure,
   and no leg's final report records it as failed: no test is lost between the slices, and
   none is lost inside one.
   */
  lemma GreenPipeline(files: set<File>, legs: set<Leg>, n: nat, s: Scheme, prefix: string, a: Leg, id: string)
    returns (leg: Leg, pass: Test)
    requires Faithful(s) && PublishedBy(files, Runs(legs), n, s) && Accepted(files, n)
    requires KeptByLines(prefix) && forall l | l in legs :: Green(l, n, prefix)
    requires a in legs && id in Universe(a.run.manifest, prefix)
    ensures leg in legs && leg.run.split < n && prefix + id in Slice(leg.run, n, prefix, prefix)
    ensures Seen(pass, leg.report.tests, leg.reruns) && Id(pass, prefix) == id && !Failing(pass)
    ensures forall l | l in legs && l.run.split < n && prefix + id in Slice(l.run, n, prefix, prefix) ::
              l.run.split == leg.run.split
    ensures forall l, t | l in legs && l.run.split < n && t in Final(l, n, prefix) && Id(t, prefix) == id :: !Failing(t)
  {
    var runs := Runs(legs);
    assert a.run in runs;
    var k := SplitCoverage(files, runs, n, s, prefix, prefix, a.run, id);
    var r :| r in runs && r.split == k && prefix + id in Slice(r, n, prefix, prefix);
    leg :| leg in legs && leg.run == r;
    SameUniverse(files, runs, n, s, prefix, a.run, r);
    pass := GreenLegPasses(leg, n, prefix, id);
    forall l | l in legs && l.run.split < n && prefix + id in Slice(l.run, n, prefix, prefix)
      ensures l.run.split == leg.run.split
    {
      assert l.run in runs && RunsOn(runs, n, prefix, prefix, id, l.run.split);
    }
  }
}
