/**
 The pytest plugin that turns the known-failure lists into marks on collected tests, and what
 a marked test reports.
 */
module KnownFailures {
  import opened Text
  import opened NodeIds

  predicate IsEntryLine(line: string) {
    var s := Strip(line);
    s != "" && s[0] != '#'
  }

  function EntryOf(line: string): seq<string> {
    if IsEntryLine(line) then [Strip(line)] else []
  }

  /** The entries of a list file, in order, without comments and blank lines. */
  function ListEntries(lines: seq<string>): seq<string> {
    FlatMap(lines, EntryOf)
  }

  datatype Lists = Lists(failing: set<string>, flaky: set<string>, crash: set<string>)

  datatype Mark = SkipCrash | StrictXfail | FlakyXfail | Unmarked

  /** The lists contradict each other: some entry is spelled the same in two of them. */
  predicate Overlaps(l: Lists) {
    l.failing * l.flaky != {} || l.crash * (l.failing + l.flaky) != {}
  }

  predicate IsPrefixEntry(e: string) {
    EndsWith(e, "/") || EndsWith(e, ".py")
  }

  /** A file entry matches the nodes inside the file, so a longer file name cannot match. */
  function AsPrefix(e: string): string {
    if EndsWith(e, ".py") then e + "::" else e
  }

  function PrefixEntries(crash: set<string>): set<string> {
    set e | e in crash && IsPrefixEntry(e) :: AsPrefix(e)
  }

  function CrashPrefixes(crash: set<string>): set<string> {
    SuffixSet(PrefixEntries(crash))
  }

  function CrashExact(crash: set<string>): set<string> {
    SuffixSet(set e | e in crash && !IsPrefixEntry(e))
  }

  predicate Crashes(crash: set<string>, id: string) {
    Covered(CrashExact(crash), CrashPrefixes(crash), id)
  }

  predicate Covered(exact: set<string>, prefixes: set<string>, id: string) {
    id in exact || exists p | p in prefixes :: p <= id
  }

  /** The lookup sets the plugin builds once and then consults for every test. */
  datatype Lookup = Lookup(crash: set<string>, crashPrefixes: set<string>, failing: set<string>, flaky: set<string>)

  function LookupOf(l: Lists): Lookup {
    Lookup(CrashExact(l.crash), CrashPrefixes(l.crash), SuffixSet(l.failing), SuffixSet(l.flaky))
  }

  function Consult(u: Lookup, id: string): Mark {
    if Covered(u.crash, u.crashPrefixes, id) then SkipCrash
    else if id in u.failing then StrictXfail
    else if id in u.flaky then FlakyXfail
    else Unmarked
  }

  function MarkFor(l: Lists, id: string): Mark {
    Consult(LookupOf(l), id)
  }

  lemma EntriesSnoc(lines: seq<string>, l: string)
    ensures Elements(ListEntries(lines + [l])) ==
            Elements(ListEntries(lines)) + if IsEntryLine(l) then {Strip(l)} else {}
  {
    FlatMapSnoc(lines, l, EntryOf);
    ElementsConcat(ListEntries(lines), EntryOf(l));
    assert IsEntryLine(l) ==> Elements([Strip(l)]) == {Strip(l)};
  }

  lemma RootEnding(e: string)
    requires EndsAtRoot(e)
    ensures e != "" && e[|e| - 1] == 's'
  {
    var parts := Split(e);
    var n := |parts| - 1;
    JoinSplit(e);
    assert parts == parts[..n] + [ROOT];
    if n > 0 {
      JoinConcat(parts[..n], [ROOT]);
    }
  }

  /** An ending without a slash is inside what follows a slash. */
  lemma EndingAfterSlash(e: string, front: string, back: string)
    requires e == front + "/" + back && EndsWith(e, ".py")
    ensures EndsWith(back, ".py")
  {
    assert e[|front|] == '/';
    assert e[|e| - 3..] == ".py";
    assert e[|e| - 3] == '.' && e[|e| - 2] == 'p' && e[|e| - 1] == 'y';
    assert |back| >= 3;
    assert back[|back| - 3..] == e[|e| - 3..];
  }

  lemma PyIsNotRoot(e: string)
    requires EndsWith(e, ".py") || EndsWith(e, "/")
    ensures !EndsAtRoot(e)
  {
    assert EndsWith(e, ".py") ==> e[|e| - 3..][2] == 'y';
    assert EndsWith(e, "/") ==> e[|e| - 1..][0] == '/';
    if EndsAtRoot(e) {
      RootEnding(e);
    }
  }

  lemma PyEnding(e: string)
    requires EndsWith(e, ".py")
    ensures EndsWith(Normalize(e), ".py")
  {
    if ROOT in Split(e) {
      PyIsNotRoot(e);
      var front := RootFront(e);
      EndingAfterSlash(e, Join(front), Normalize(e));
    }
  }

  // ----- What the lists say about a test -----

  /** The entry is the test's name, as written or from the root directory on. */
  predicate NamesTest(e: string, id: string) {
    e == id || Normalize(e) == id
  }

  ghost predicate Named(entries: set<string>, id: string) {
    exists e | e in entries :: NamesTest(e, id)
  }

  /** A directory entry covers what is under it, a file entry its nodes, any other entry one test. */
  predicate Suppresses(e: string, id: string) {
    if EndsWith(e, ".py") then e + "::" <= id || Normalize(e) + "::" <= id
    else if EndsWith(e, "/") then e <= id || Normalize(e) <= id
    else NamesTest(e, id)
  }

  ghost predicate Suppressed(crash: set<string>, id: string) {
    exists e | e in crash :: Suppresses(e, id)
  }

  lemma SuffixSetExactly(entries: set<string>, id: string)
    ensures id in SuffixSet(entries) <==> Named(entries, id)
  {
    if Named(entries, id) {
      var e :| e in entries && NamesTest(e, id);
      assert ROOT in Split(e) || Normalize(e) == e;
    }
  }

  lemma SplitColons(s: string)
    ensures Split(s + "::") == Append(Append(Split(s), ':'), ':')
  {
    SplitAppend(s, ':');
    SplitAppend(s + ":", ':');
    assert s + "::" == (s + ":") + ":";
  }

  /** Two colons at the end neither make nor unmake a part that is the root directory, except the last. */
  lemma ColonsKeepRoot(s: string)
    requires !EndsAtRoot(s)
    ensures ROOT in Split(s + "::") <==> ROOT in Split(s)
  {
    SplitColons(s);
    var parts := Split(s);
    var n := |parts| - 1;
    var all := Split(s + "::");
    assert all == parts[..n] + [(parts[n] + ":") + ":"];
    assert all[n][|all[n]| - 1] == ':' && ROOT[|ROOT| - 1] == 's';
    assert parts == parts[..n] + [parts[n]];
  }

  lemma Glue(a: string, b: string, c: string)
    ensures (a + "/" + b) + c == a + "/" + (b + c)
  {
  }

  lemma NormalizeFile(e: string)
    requires EndsWith(e, ".py")
    ensures Normalize(e + "::") == Normalize(e) + "::"
  {
    PyIsNotRoot(e);
    ColonsKeepRoot(e);
    if ROOT in Split(e) {
      var front := RootFront(e);
      NormalizeSplit(e);
      PyEnding(e);
      PyIsNotRoot(Normalize(e));
      ColonsKeepRoot(Normalize(e));
      NormalizeAfterFront(front, Normalize(e) + "::");
      Glue(Join(front), Normalize(e), "::");
    }
  }

  lemma PrefixSuppresses(e: string, id: string)
    requires IsPrefixEntry(e)
    ensures Suppresses(e, id) <==> AsPrefix(e) <= id || Normalize(AsPrefix(e)) <= id
  {
    if EndsWith(e, ".py") {
      NormalizeFile(e);
    }
  }

  lemma WrittenCovers(written: set<string>, w: string, id: string) returns (p: string)
    requires w in written && (w <= id || Normalize(w) <= id)
    ensures p in SuffixSet(written) && p <= id
  {
    p := if w <= id then w else Normalize(w);
    SuffixSetExactly(written, p);
    assert NamesTest(w, p);
  }

  lemma PrefixCovers(written: set<string>, id: string)
    ensures (exists p | p in SuffixSet(written) :: p <= id) <==>
            exists w | w in written :: w <= id || Normalize(w) <= id
  {
    if w :| w in written && (w <= id || Normalize(w) <= id) {
      var p := WrittenCovers(written, w, id);
    }
    if p :| p in SuffixSet(written) && p <= id {
      SuffixSetExactly(written, p);
      var w :| w in written && NamesTest(w, p);
    }
  }

  lemma EntryCovers(crash: set<string>, e: string, id: string)
    requires e in crash && IsPrefixEntry(e) && Suppresses(e, id)
    ensures exists p | p in CrashPrefixes(crash) :: p <= id
  {
    PrefixSuppresses(e, id);
    var p := WrittenCovers(PrefixEntries(crash), AsPrefix(e), id);
    assert p in CrashPrefixes(crash);
  }

  lemma CoverHasEntry(crash: set<string>, id: string) returns (e: string)
    requires exists p | p in CrashPrefixes(crash) :: p <= id
    ensures e in crash && IsPrefixEntry(e) && Suppresses(e, id)
  {
    PrefixCovers(PrefixEntries(crash), id);
    var w :| w in PrefixEntries(crash) && (w <= id || Normalize(w) <= id);
    e :| e in crash && IsPrefixEntry(e) && AsPrefix(e) == w;
    PrefixSuppresses(e, id);
  }

  lemma PrefixesExactly(crash: set<string>, id: string)
    ensures (exists p | p in CrashPrefixes(crash) :: p <= id) <==>
            exists e | e in crash && IsPrefixEntry(e) :: Suppresses(e, id)
  {
    if e :| e in crash && IsPrefixEntry(e) && Suppresses(e, id) {
      EntryCovers(crash, e, id);
    }
    if exists p | p in CrashPrefixes(crash) :: p <= id {
      var e := CoverHasEntry(crash, id);
    }
  }

  /** The plugin skips exactly the tests that some crash entry covers. */
  lemma SuppressedExactly(crash: set<string>, id: string)
    ensures Crashes(crash, id) <==> Suppressed(crash, id)
  {
    PrefixesExactly(crash, id);
    var exact := set e | e in crash && !IsPrefixEntry(e);
    SuffixSetExactly(exact, id);
    assert forall e | e in crash && !IsPrefixEntry(e) :: e in exact && (Suppresses(e, id) <==> NamesTest(e, id));
  }

  /** What each mark means. */
  lemma MarkExactly(l: Lists, id: string)
    ensures MarkFor(l, id) == SkipCrash <==> Suppressed(l.crash, id)
    ensures MarkFor(l, id) == StrictXfail <==> !Suppressed(l.crash, id) && Named(l.failing, id)
    ensures MarkFor(l, id) == FlakyXfail <==>
            !Suppressed(l.crash, id) && !Named(l.failing, id) && Named(l.flaky, id)
  {
    SuppressedExactly(l.crash, id);
    SuffixSetExactly(l.failing, id);
    SuffixSetExactly(l.flaky, id);
  }

  /** A part that is the root directory, and not the last one, stays a part in any longer path. */
  lemma RootStays(p: string, rest: string)
    requires ROOT in Split(p) && !EndsAtRoot(p)
    ensures ROOT in Split(p + rest)
  {
    var front := RootFront(p);
    RootStaysAfter(front, Normalize(p), p, rest);
  }

  lemma RootStaysAfter(front: seq<string>, back: string, p: string, rest: string)
    requires front != [] && front[|front| - 1] == ROOT && NoSlash(front) && p == Join(front) + "/" + back
    ensures ROOT in Split(p + rest)
  {
    NormalizeAfterFront(front, back + rest);
    Glue(Join(front), back, rest);
    assert (front + Split(back + rest))[|front| - 1] == ROOT;
  }

  /** A normal ID does not begin with a path that goes on after the root directory. */
  lemma NormalHasNoRootPrefix(p: string, id: string)
    requires Normal(id) && p <= id && !EndsAtRoot(p)
    ensures Normalize(p) == p
  {
    NormalExactly(id);
    assert id == p + id[|p|..];
    if ROOT in Split(p) {
      RootStays(p, id[|p|..]);
    }
  }

  /** For a normal ID only the normal form of an entry matters. */
  lemma SuppressesNormal(e: string, id: string)
    requires Normal(id)
    ensures Suppresses(e, id) <==>
            if EndsWith(e, ".py") then Normalize(e) + "::" <= id
            else if EndsWith(e, "/") then Normalize(e) <= id
            else Normalize(e) == id
  {
    if EndsWith(e, ".py") {
      if e + "::" <= id {
        assert e <= id;
        PyIsNotRoot(e);
        NormalHasNoRootPrefix(e, id);
      }
    } else if EndsWith(e, "/") && e <= id {
      PyIsNotRoot(e);
      NormalHasNoRootPrefix(e, id);
    }
  }

  /**
   A normal ID is skipped if and only if it is the normal form of an entry for one test, or
   extends the normal form of a directory entry, or that of a file entry and two colons.
   */
  lemma CrashesExactly(crash: set<string>, id: string)
    requires Normal(id)
    ensures Crashes(crash, id) <==>
            exists e | e in crash ::
              if EndsWith(e, ".py") then Normalize(e) + "::" <= id
              else if EndsWith(e, "/") then Normalize(e) <= id
              else Normalize(e) == id
  {
    SuppressedExactly(crash, id);
    forall e | e in crash {
      SuppressesNormal(e, id);
    }
  }

  /** The module state of the plugin: the three lists, filled once. */
  class Plugin {
    var failing: set<string>
    var flaky: set<string>
    var crash: set<string>
    var loaded: bool

    constructor ()
      ensures failing == {} && flaky == {} && crash == {} && !loaded
    {
      failing, flaky, crash, loaded := {}, {}, {}, false;
    }

    function AsLists(): Lists
      reads this
    {
      Lists(failing, flaky, crash)
    }

    static method LoadTestList(lines: seq<string>) returns (entries: set<string>)
      ensures entries == Elements(ListEntries(lines))
    {
      entries := {};
      for i := 0 to |lines|
        invariant entries == Elements(ListEntries(lines[..i]))
      {
        assert lines[..i + 1] == lines[..i] + [lines[i]];
        EntriesSnoc(lines[..i], lines[i]);
        if IsEntryLine(lines[i]) {
          entries := entries + {Strip(lines[i])};
        }
      }
      assert lines[..|lines|] == lines;
    }

    /**
     Fills the lists on the first call only, and then reports whether they may be used.  The
     loaded flag is set before the check, so a later call neither reloads nor checks again.
     */
    method Load(failingLines: seq<string>, flakyLines: seq<string>, crashLines: seq<string>) returns (ok: bool)
      modifies this
      ensures loaded
      ensures old(loaded) ==> ok && AsLists() == old(AsLists())
      ensures !old(loaded) ==>
                && failing == old(failing) + Elements(ListEntries(failingLines))
                && flaky == old(flaky) + Elements(ListEntries(flakyLines))
                && crash == old(crash) + Elements(ListEntries(crashLines))
                && (ok <==> !Overlaps(AsLists()))
    {
      if loaded {
        return true;
      }
      loaded := true;
      var a := LoadTestList(failingLines);
      var b := LoadTestList(flakyLines);
      var c := LoadTestList(crashLines);
      failing, flaky, crash := failing + a, flaky + b, crash + c;
      ok := failing * flaky == {} && crash * (failing + flaky) == {};
    }

    /**
     One mark per collected test: skipped when a crash entry covers it, else expected to fail
     when the failing list names it, else allowed to fail when the flaky list names it.
     */
    method MarkItems(ids: seq<string>) returns (marks: seq<Mark>)
      ensures |marks| == |ids|
      ensures forall i | 0 <= i < |ids| :: marks[i] == SkipCrash <==> Suppressed(crash, ids[i])
      ensures forall i | 0 <= i < |ids| ::
                marks[i] == StrictXfail <==> !Suppressed(crash, ids[i]) && Named(failing, ids[i])
      ensures forall i | 0 <= i < |ids| ::
                marks[i] == FlakyXfail <==>
                !Suppressed(crash, ids[i]) && !Named(failing, ids[i]) && Named(flaky, ids[i])
    {
      var u := LookupOf(AsLists());
      marks := [];
      for i := 0 to |ids|
        invariant |marks| == i && forall k | 0 <= k < i :: marks[k] == Consult(u, ids[k])
      {
        marks := marks + [Consult(u, ids[i])];
      }
      forall i | 0 <= i < |ids| {
        MarkExactly(AsLists(), ids[i]);
      }
    }
  }

  /** What pytest reports for a test of the given mark whose call passes or fails. */
  function RunOutcome(m: Mark, passes: bool): string {
    match m
    case SkipCrash => "skipped"
    case StrictXfail => if passes then "failed" else "xfailed"
    case FlakyXfail => if passes then "xpassed" else "xfailed"
    case Unmarked => if passes then "passed" else "failed"
  }

  /** A crash entry that is not a file suppresses its own normal form, whichever way it is spelled. */
  lemma CrashEntrySkips(l: Lists, e: string)
    requires e in l.crash && !EndsWith(Normalize(e), ".py")
    ensures MarkFor(l, Normalize(e)) == SkipCrash
  {
    NormalizeIdempotent(e);
    CrashesExactly(l.crash, Normalize(e));
    if EndsWith(e, ".py") {
      PyEnding(e);
    }
  }
}
