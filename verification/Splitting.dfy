/**
 Splitting a collected test suite over parallel legs, and the cross-leg check that makes the
 splits a partition: every leg slices its own collection, so coverage holds only if all of
 them sliced the same universe.
 */
module Splitting {
  import opened Options
  import opened Text

  // ----- The stride slice of one leg -----

  predicate IsNodeLine(line: string) {
    var s := Strip(line);
    s != "" && s[0] != '#' && Contains(s, "::")
  }

  function NodeOf(line: string): seq<string> {
    if IsNodeLine(line) then [Strip(line)] else []
  }

  /** First occurrences in order. */
  function FirstSeen(ids: seq<string>): seq<string> {
    if ids == [] then []
    else
      var n := |ids| - 1;
      var before := FirstSeen(ids[..n]);
      if ids[n] in before then before else before + [ids[n]]
  }

  /** The node IDs of a collection manifest. */
  function ManifestIds(lines: seq<string>): seq<string> {
    FirstSeen(FlatMap(lines, NodeOf))
  }

  /** The node IDs a set of lines names. */
  function NodeIds(lines: set<string>): set<string> {
    set l | l in lines && IsNodeLine(l) :: Strip(l)
  }

  lemma {:induction false} FirstSeenMembers(ids: seq<string>, x: string)
    ensures x in FirstSeen(ids) <==> x in ids
  {
    if ids != [] {
      var n := |ids| - 1;
      FirstSeenMembers(ids[..n], x);
      assert ids == ids[..n] + [ids[n]];
    }
  }

  lemma FirstSeenSnoc(ids: seq<string>, id: string)
    ensures FirstSeen(ids + [id]) == if id in FirstSeen(ids) then FirstSeen(ids) else FirstSeen(ids) + [id]
  {
    assert (ids + [id])[..|ids|] == ids;
  }

  lemma ManifestSnoc(lines: seq<string>, line: string)
    ensures var ids, id := ManifestIds(lines), Strip(line);
            ManifestIds(lines + [line]) == if IsNodeLine(line) && id !in ids then ids + [id] else ids
  {
    FlatMapSnoc(lines, line, NodeOf);
    var found := FlatMap(lines, NodeOf);
    if IsNodeLine(line) {
      FirstSeenSnoc(found, Strip(line));
    } else {
      assert found + [] == found;
    }
  }

  lemma ManifestStep(lines: seq<string>, i: nat)
    requires i < |lines|
    ensures var ids, id := ManifestIds(lines[..i]), Strip(lines[i]);
            ManifestIds(lines[..i + 1]) == if IsNodeLine(lines[i]) && id !in ids then ids + [id] else ids
  {
    var before, line := lines[..i], lines[i];
    ManifestSnoc(before, line);
    assert lines[..i + 1] == before + [line];
  }

  lemma ElementsSnoc(ids: seq<string>, id: string)
    ensures Elements(ids + [id]) == Elements(ids) + {id}
    ensures id in Elements(ids) <==> id in ids
  {
  }

  /** Reads a collection manifest, keeping a set of what was seen. */
  method ReadManifestIds(lines: seq<string>) returns (ids: seq<string>)
    ensures ids == ManifestIds(lines)
  {
    ids := [];
    var seen: set<string> := {};
    for i := 0 to |lines|
      invariant ids == ManifestIds(lines[..i]) && seen == Elements(ids)
    {
      var id := Strip(lines[i]);
      ManifestStep(lines, i);
      ElementsSnoc(ids, id);
      if IsNodeLine(lines[i]) && id !in seen {
        seen := seen + {id};
        ids := ids + [id];
      }
    }
    assert lines[..|lines|] == lines;
  }

  lemma ManifestMembers(lines: seq<string>, x: string)
    ensures x in ManifestIds(lines) <==> exists l | l in lines :: IsNodeLine(l) && x == Strip(l)
  {
    FirstSeenMembers(FlatMap(lines, NodeOf), x);
    FlatMapMembers(lines, NodeOf, x);
    assert forall l :: x in NodeOf(l) <==> IsNodeLine(l) && x == Strip(l);
  }

  lemma ManifestElements(lines: seq<string>)
    ensures Elements(ManifestIds(lines)) == NodeIds(Elements(lines))
  {
    forall x {
      ManifestMembers(lines, x);
    }
  }

  function StripAll(ids: seq<string>, prefix: string): (r: seq<string>)
    ensures |r| == |ids| && forall i | 0 <= i < |ids| :: r[i] == Without(ids[i], prefix)
  {
    seq(|ids|, i requires 0 <= i < |ids| => Without(ids[i], prefix))
  }

  /** The sorted universe a leg slices. */
  function Universe(lines: seq<string>, strip: string): (u: seq<string>)
    ensures Ascending(u)
  {
    SortedDistinct(StripAll(ManifestIds(lines), strip))
  }

  /** Every `n`-th element from position `k` on. */
  function Stride<T>(s: seq<T>, k: nat, n: nat): (r: seq<T>)
    requires n > 0
    ensures forall x | x in r :: x in s
    decreases |s| - k
  {
    if k >= |s| then [] else [s[k]] + Stride(s, k + n, n)
  }

  /** The node IDs of one leg; `None` for a split number outside the range. */
  function SplitIds(lines: seq<string>, n: int, k: int, prefix: string, strip: string): (r: Option<seq<string>>)
    ensures r.Some? <==> n >= 1 && 0 <= k < n
  {
    if n < 1 || !(0 <= k < n) then None
    else
      var ids := Stride(Universe(lines, strip), k, n);
      Some(seq(|ids|, i requires 0 <= i < |ids| => prefix + ids[i]))
  }

  lemma Multiples(n: int, d: int)
    requires n > 0
    ensures d >= 1 ==> n * d >= n
    ensures d <= -1 ==> n * d <= -n
  {
  }

  lemma DivModUnique(x: int, n: int, q: int, r: int)
    requires n > 0 && x == n * q + r && 0 <= r < n
    ensures x / n == q && x % n == r
  {
    var d := x / n - q;
    assert n * d == r - x % n;
    Multiples(n, d);
  }

  /** Position `i` is `k` plus a multiple of `n`. */
  predicate OnLeg(i: nat, k: nat, n: nat)
    requires n > 0
    decreases if i > k then i - k else 0
  {
    i == k || (i > k && OnLeg(i, k + n, n))
  }

  /** The leg of a position is its remainder. */
  lemma {:induction false} LegIsRemainder(i: nat, k: nat, n: nat, q: nat, r: nat)
    requires n > 0 && r < n && k == n * q + r
    ensures OnLeg(i, k, n) ==> i % n == r
    decreases if i > k then i - k else 0
  {
    if i == k {
      DivModUnique(i, n, q, r);
    } else if i > k {
      LegIsRemainder(i, k + n, n, q + 1, r);
    }
  }

  lemma {:induction false} RemainderIsLeg(i: nat, k: nat, n: nat, q: nat)
    requires n > 0 && i == k + n * q
    ensures OnLeg(i, k, n)
    decreases q
  {
    if q > 0 {
      Multiples(n, q);
      RemainderIsLeg(i, k + n, n, q - 1);
    }
  }

  /** A leg runs exactly the positions that are on it. */
  lemma {:induction false} StrideMembers(u: seq<string>, k: nat, n: nat, i: nat)
    requires n > 0 && Ascending(u) && i < |u|
    ensures u[i] in Stride(u, k, n) <==> OnLeg(i, k, n)
    decreases |u| - k
  {
    if k < |u| {
      StrideMembers(u, k + n, n, i);
      if u[i] == u[k] {
        AscendingDistinct(u, i, k);
      }
    }
    if i < k {
      LegsGoForward(i, k, n);
    }
  }

  lemma LegsGoForward(i: nat, k: nat, n: nat)
    requires n > 0 && i < k
    ensures !OnLeg(i, k, n)
  {
  }

  lemma {:induction false} StrideBalanced<T>(s: seq<T>, k: nat, m: nat, n: nat)
    requires n > 0 && k <= m <= k + n
    ensures |Stride(s, m, n)| <= |Stride(s, k, n)| <= |Stride(s, m, n)| + 1
    decreases |s| - k
  {
    if k < |s| && k < m {
      StrideBalanced(s, m, k + n, n);
    }
  }

  lemma OneLeg(u: seq<string>, n: nat, i: nat)
    requires n > 0 && Ascending(u) && i < |u|
    ensures 0 <= i % n < n && u[i] in Stride(u, i % n, n)
    ensures forall k: nat | k < n && u[i] in Stride(u, k, n) :: k == i % n
  {
    StrideMembers(u, i % n, n, i);
    RemainderIsLeg(i, i % n, n, i / n);
    forall k: nat | k < n && u[i] in Stride(u, k, n)
      ensures k == i % n
    {
      StrideMembers(u, k, n, i);
      LegIsRemainder(i, k, n, 0, k);
    }
  }

  /** One universe sliced into `n` strides: every test on exactly one leg, legs of equal size up to one. */
  lemma SlicesPartition(u: seq<string>, n: nat, i: nat)
    requires n > 0 && Ascending(u) && i < |u|
    ensures 0 <= i % n < n && u[i] in Stride(u, i % n, n)
    ensures forall k: nat | k < n && u[i] in Stride(u, k, n) :: k == i % n
    ensures forall k: nat, m: nat | k < m < n :: |Stride(u, m, n)| <= |Stride(u, k, n)| <= |Stride(u, m, n)| + 1
  {
    OneLeg(u, n, i);
    forall k: nat, m: nat | k < m < n
      ensures |Stride(u, m, n)| <= |Stride(u, k, n)| <= |Stride(u, m, n)| + 1
    {
      StrideBalanced(u, k, m, n);
    }
  }

  // ----- The cross-leg check -----

  datatype Mode = Parallel | NoParallel

  /** One leg's published record: its split tag, its mode, and a hash and count of what it collected. */
  datatype Record = Record(tag: string, mode: Mode, hash: string, count: nat)

  datatype File = Unreadable | Readable(record: Record)

  datatype Problem =
    | UnreadableRecord
    | ConflictingTags(tags: set<string>)
    | WrongCount(reported: nat)
    | DifferentUniverses

  /** What the parallel legs reported; repeated identical records count once. */
  function Reported(files: set<File>): set<Record> {
    set f | f in files && f.Readable? && f.record.mode.Parallel? :: f.record
  }

  predicate Conflict(rs: set<Record>, tag: string) {
    exists a, b | a in rs && b in rs :: a != b && a.tag == b.tag == tag
  }

  predicate SameHash(rs: set<Record>) {
    forall a, b | a in rs && b in rs :: a.hash == b.hash
  }

  /** The verdict as a property of the set of files, so that republished records cannot change it. */
  ghost predicate Accepted(files: set<File>, expected: int) {
    && Unreadable !in files
    && |Reported(files)| == expected
    && (forall t :: !Conflict(Reported(files), t))
    && SameHash(Reported(files))
  }

  predicate Distinct<T(==)>(s: seq<T>) {
    forall i, k | 0 <= i < k < |s| :: s[i] != s[k]
  }

  lemma {:induction false} DistinctSize<T>(s: seq<T>)
    requires Distinct(s)
    ensures |Elements(s)| == |s|
  {
    if s != [] {
      var n := |s| - 1;
      DistinctSize(s[..n]);
      assert Elements(s) == Elements(s[..n]) + {s[n]};
    }
  }

  lemma ReportedAdd(files: set<File>, f: File)
    ensures Reported(files + {f}) == Reported(files) + if f.Readable? && f.record.mode.Parallel? then {f.record} else {}
  {
  }

  lemma HashesAgree(rs: set<Record>)
    ensures var hashes := set r | r in rs :: r.hash; |hashes| > 1 <==> !SameHash(rs)
  {
    var hashes := set r | r in rs :: r.hash;
    if !SameHash(rs) {
      var a, b :| a in rs && b in rs && a.hash != b.hash;
      assert {a.hash, b.hash} <= hashes;
      SubsetSize({a.hash, b.hash}, hashes);
    } else if hashes != {} {
      var h :| h in hashes;
      assert hashes == {h};
    }
  }

  lemma SubsetSize<T>(a: set<T>, b: set<T>)
    requires a <= b
    ensures |a| <= |b|
    ensures |a| == |b| ==> a == b
  {
    assert b == a + (b - a);
  }

  /** Reads the records and collapses identical ones; unreadable files become problems. */
  method ReadRecords(files: seq<File>) returns (problems: seq<Problem>, parallel: seq<Record>)
    ensures problems == [] <==> Unreadable !in files
    ensures forall p | p in problems :: p == UnreadableRecord
    ensures Distinct(parallel) && Elements(parallel) == Reported(Elements(files))
  {
    problems := [];
    parallel := [];
    for i := 0 to |files|
      invariant problems == [] <==> Unreadable !in files[..i]
      invariant forall p | p in problems :: p == UnreadableRecord
      invariant Distinct(parallel)
      invariant Elements(parallel) == Reported(Elements(files[..i]))
    {
      assert Elements(files[..i + 1]) == Elements(files[..i]) + {files[i]};
      ReportedAdd(Elements(files[..i]), files[i]);
      match files[i]
      case Unreadable => problems := problems + [UnreadableRecord];
      case Readable(r) =>
        if r.mode.Parallel? && r !in parallel {
          parallel := parallel + [r];
        }
    }
    assert files[..|files|] == files;
  }

  function ConflictingTagSet(parallel: seq<Record>): (tags: set<string>)
    ensures forall t :: t in tags <==> Conflict(Elements(parallel), t)
  {
    set r, q | r in parallel && q in parallel && q != r && q.tag == r.tag :: r.tag
  }

  /**
   The cross-leg check over the published records, in the order of their paths.  Records are
   collapsed before they are counted, so a leg republished by a retry is not a second leg.
   */
  method VerifySplitUniverses(files: seq<File>, expected: int) returns (problems: seq<Problem>)
    ensures problems == [] <==> Accepted(Elements(files), expected)
  {
    var parallel;
    problems, parallel := ReadRecords(files);
    DistinctSize(parallel);
    var tags := ConflictingTagSet(parallel);
    if tags != {} {
      ghost var t :| t in tags;
      assert Conflict(Elements(parallel), t);
      problems := problems + [ConflictingTags(tags)];
    }
    if |parallel| != expected {
      problems := problems + [WrongCount(|parallel|)];
    }
    HashesAgree(Elements(parallel));
    var hashes := set r | r in parallel :: r.hash;
    assert hashes == set r | r in Elements(parallel) :: r.hash;
    if |hashes| > 1 {
      problems := problems + [DifferentUniverses];
    }
  }

  // ----- Coverage, end to end -----

  /** One execution of a parallel leg: its split number and the manifest it collected. */
  datatype Run = Run(split: nat, manifest: seq<string>, count: nat)

  /** What the leg hashes: its distinct manifest lines that name a node. */
  function CollectedLines(manifest: seq<string>): set<string> {
    set l | l in manifest && Contains(l, "::")
  }

  /** The naming scheme of a pipeline: the tag of each split number, and the universe hash. */
  datatype Scheme = Scheme(tag: nat -> string, hash: set<string> -> string)

  function RecordOf(s: Scheme, r: Run): Record {
    Record(s.tag(r.split), Parallel, s.hash(CollectedLines(r.manifest)), r.count)
  }

  /** Distinct splits have distinct tags and distinct collections distinct hashes. */
  ghost predicate Faithful(s: Scheme) {
    && (forall i: nat, k: nat :: s.tag(i) == s.tag(k) ==> i == k)
    && (forall a: set<string>, b: set<string> :: s.hash(a) == s.hash(b) ==> a == b)
  }

  /** The files are what the runs of an `n`-way split published, with other files among them. */
  ghost predicate PublishedBy(files: set<File>, runs: set<Run>, n: nat, s: Scheme) {
    && (forall r | r in runs :: r.split < n && Readable(RecordOf(s, r)) in files)
    && (forall c | c in Reported(files) :: exists r | r in runs :: RecordOf(s, r) == c)
  }

  /** The node IDs a run executes. */
  function Slice(r: Run, n: nat, prefix: string, strip: string): seq<string>
    requires r.split < n
  {
    SplitIds(r.manifest, n, r.split, prefix, strip).value
  }

  lemma SliceMembers(r: Run, n: nat, prefix: string, strip: string, id: string)
    requires r.split < n
    ensures |Slice(r, n, prefix, strip)| == |Stride(Universe(r.manifest, strip), r.split, n)|
    ensures prefix + id in Slice(r, n, prefix, strip) <==> id in Stride(Universe(r.manifest, strip), r.split, n)
  {
    var ids, out := Stride(Universe(r.manifest, strip), r.split, n), Slice(r, n, prefix, strip);
    if prefix + id in out {
      var i :| 0 <= i < |out| && out[i] == prefix + id;
      assert ids[i] == out[i][|prefix|..] == id;
    }
    if id in ids {
      var i :| 0 <= i < |ids| && ids[i] == id;
      assert out[i] == prefix + id;
    }
  }

  lemma CollectedDeterminesUniverse(a: seq<string>, b: seq<string>, strip: string)
    requires CollectedLines(a) == CollectedLines(b)
    ensures Universe(a, strip) == Universe(b, strip)
  {
    ManifestElements(a);
    ManifestElements(b);
    forall l: string | IsNodeLine(l) ensures Contains(l, "::") {
      StripInside(l, "::");
    }
    assert NodeIds(Elements(a)) == NodeIds(CollectedLines(a));
    assert NodeIds(Elements(b)) == NodeIds(CollectedLines(b));
    StripElements(ManifestIds(a), strip);
    StripElements(ManifestIds(b), strip);
    AscendingUnique(Universe(a, strip), Universe(b, strip));
  }

  lemma StripElements(ids: seq<string>, prefix: string)
    ensures Elements(StripAll(ids, prefix)) == set x | x in Elements(ids) :: Without(x, prefix)
  {
    forall x | x in Elements(ids) ensures Without(x, prefix) in StripAll(ids, prefix) {
      var i :| 0 <= i < |ids| && ids[i] == x;
      assert StripAll(ids, prefix)[i] == Without(x, prefix);
    }
  }

  lemma {:induction false} TagsSize(rs: set<Record>)
    requires forall t :: !Conflict(rs, t)
    ensures |set r | r in rs :: r.tag| == |rs|
  {
    if rs != {} {
      var c :| c in rs;
      var rest := rs - {c};
      assert forall t :: Conflict(rest, t) ==> Conflict(rs, t);
      TagsSize(rest);
      var tags, restTags := set r | r in rs :: r.tag, set r | r in rest :: r.tag;
      assert forall q | q in rest :: q.tag == c.tag ==> Conflict(rs, c.tag);
      assert tags == restTags + {c.tag};
    }
  }

  function AllTags(s: Scheme, n: nat): (tags: set<string>)
    ensures |tags| <= n
    ensures forall k: nat | k < n :: s.tag(k) in tags
    ensures forall t | t in tags :: exists k: nat :: k < n && s.tag(k) == t
  {
    if n == 0 then {} else AllTags(s, n - 1) + {s.tag(n - 1)}
  }

  lemma TagsReported(files: set<File>, runs: set<Run>, n: nat, s: Scheme)
    requires PublishedBy(files, runs, n, s)
    ensures (set c | c in Reported(files) :: c.tag) <= AllTags(s, n)
  {
    forall c | c in Reported(files)
      ensures c.tag in AllTags(s, n)
    {
      var r :| r in runs && RecordOf(s, r) == c;
    }
  }

  lemma AllTagsReported(files: set<File>, runs: set<Run>, n: nat, s: Scheme)
    requires PublishedBy(files, runs, n, s) && Accepted(files, n)
    ensures (set c | c in Reported(files) :: c.tag) == AllTags(s, n)
  {
    TagsReported(files, runs, n, s);
    TagsSize(Reported(files));
    SubsetSize(set c | c in Reported(files) :: c.tag, AllTags(s, n));
  }

  lemma TagHasRun(files: set<File>, runs: set<Run>, n: nat, s: Scheme, k: nat) returns (r: Run)
    requires PublishedBy(files, runs, n, s) && Accepted(files, n) && k < n
    ensures r in runs && s.tag(r.split) == s.tag(k)
  {
    AllTagsReported(files, runs, n, s);
    var c :| c in Reported(files) && c.tag == s.tag(k);
    r :| r in runs && RecordOf(s, r) == c;
  }

  /** If the check accepts, every split number has a run behind it. */
  lemma AllSplitsRan(files: set<File>, runs: set<Run>, n: nat, s: Scheme, k: nat)
    requires Faithful(s) && PublishedBy(files, runs, n, s) && Accepted(files, n) && k < n
    ensures exists r | r in runs :: r.split == k
  {
    var r := TagHasRun(files, runs, n, s, k);
    assert r.split == k;
  }

  /** If the check accepts, all runs sliced the same universe. */
  lemma SameUniverse(files: set<File>, runs: set<Run>, n: nat, s: Scheme, strip: string, a: Run, b: Run)
    requires Faithful(s) && PublishedBy(files, runs, n, s) && Accepted(files, n) && a in runs && b in runs
    ensures Universe(a.manifest, strip) == Universe(b.manifest, strip)
  {
    assert RecordOf(s, a) in Reported(files) && RecordOf(s, b) in Reported(files);
    CollectedDeterminesUniverse(a.manifest, b.manifest, strip);
  }

  /** Some run of split `k` executes the test. */
  ghost predicate RunsOn(runs: set<Run>, n: nat, prefix: string, strip: string, id: string, k: nat)
    requires k < n
  {
    exists r | r in runs :: r.split == k && prefix + id in Slice(r, n, prefix, strip)
  }

  /**
   When the cross-leg check reports no problem, every test that any leg collected is executed
   by exactly one split, and the legs' shares differ by at most one.
   */
  lemma SplitCoverage(files: set<File>, runs: set<Run>, n: nat, s: Scheme,
                      prefix: string, strip: string, a: Run, id: string)
    returns (k: nat)
    requires Faithful(s) && PublishedBy(files, runs, n, s) && Accepted(files, n)
    requires a in runs && id in Universe(a.manifest, strip)
    ensures k < n && RunsOn(runs, n, prefix, strip, id, k)
    ensures forall m: nat | m < n && RunsOn(runs, n, prefix, strip, id, m) :: m == k
    ensures forall b, c | b in runs && c in runs :: |Slice(b, n, prefix, strip)| <= |Slice(c, n, prefix, strip)| + 1
  {
    var u := Universe(a.manifest, strip);
    forall b | b in runs
      ensures Universe(b.manifest, strip) == u
      ensures |Slice(b, n, prefix, strip)| == |Stride(u, b.split, n)|
      ensures prefix + id in Slice(b, n, prefix, strip) <==> id in Stride(u, b.split, n)
    {
      SameUniverse(files, runs, n, s, strip, a, b);
      SliceMembers(b, n, prefix, strip, id);
    }
    var i :| 0 <= i < |u| && u[i] == id;
    SlicesPartition(u, n, i);
    k := i % n;
    AllSplitsRan(files, runs, n, s, k);
    forall b, c | b in runs && c in runs
      ensures |Slice(b, n, prefix, strip)| <= |Slice(c, n, prefix, strip)| + 1
    {
      if b.split <= c.split {
        StrideBalanced(u, b.split, c.split, n);
      } else {
        StrideBalanced(u, c.split, b.split, n);
      }
    }
  }
}
