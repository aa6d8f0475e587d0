/**
 Node IDs in their two spellings: relative to the test root directory, or with a path in
 front that contains that directory's name.
 */
module NodeIds {
  import opened Text

  const ROOT := "documentdb_tests"

  /** The parts of a path between its slashes. */
  function Split(s: string): (parts: seq<string>)
    ensures parts != []
  {
    if s == "" then [""]
    else Prepend(s[0], Split(s[1..]))
  }

  function Join(parts: seq<string>): string {
    if parts == [] then ""
    else if |parts| == 1 then parts[0]
    else parts[0] + "/" + Join(parts[1..])
  }

  lemma {:induction false} JoinSplit(s: string)
    ensures Join(Split(s)) == s
  {
    if s != "" {
      var rest := Split(s[1..]);
      JoinSplit(s[1..]);
      assert s == [s[0]] + s[1..];
      if s[0] == '/' {
        assert ([""] + rest)[1..] == rest;
      } else {
        assert ([[s[0]] + rest[0]] + rest[1..])[1..] == rest[1..];
      }
    }
  }

  lemma {:induction false} SplitConcat(a: string, b: string)
    ensures Split(a + "/" + b) == Split(a) + Split(b)
  {
    if a == "" {
      assert a + "/" + b == ['/'] + b;
      SplitCons('/', b);
    } else {
      SplitConcat(a[1..], b);
      var tail := a[1..] + "/" + b;
      assert a + "/" + b == [a[0]] + tail;
      assert a == [a[0]] + a[1..];
      SplitCons(a[0], tail);
      SplitCons(a[0], a[1..]);
      PrependConcat(a[0], Split(a[1..]), Split(b));
    }
  }

  /** The parts of a path with one character put in front of it. */
  function Prepend(c: char, parts: seq<string>): seq<string>
    requires parts != []
  {
    if c == '/' then [""] + parts else [[c] + parts[0]] + parts[1..]
  }

  lemma SplitCons(c: char, s: string)
    ensures Split([c] + s) == Prepend(c, Split(s))
  {
    assert ([c] + s)[1..] == s;
  }

  lemma PrependConcat(c: char, p: seq<string>, q: seq<string>)
    requires p != []
    ensures Prepend(c, p + q) == Prepend(c, p) + q
  {
  }

  lemma {:induction false} JoinConcat(p: seq<string>, q: seq<string>)
    requires p != [] && q != []
    ensures Join(p + q) == Join(p) + "/" + Join(q)
  {
    if |p| == 1 {
      assert (p + q)[1..] == q;
    } else {
      JoinConcat(p[1..], q);
      assert (p + q)[1..] == p[1..] + q;
    }
  }

  predicate NoSlash(parts: seq<string>) {
    forall p | p in parts :: '/' !in p
  }

  lemma {:induction false} SplitNoSlash(s: string)
    ensures NoSlash(Split(s))
  {
    if s != "" {
      SplitNoSlash(s[1..]);
    }
  }

  lemma {:induction false} SplitWord(w: string)
    requires '/' !in w
    ensures Split(w) == [w]
  {
    if w != "" {
      SplitWord(w[1..]);
      assert w == [w[0]] + w[1..];
    }
  }

  lemma {:induction false} SplitJoin(parts: seq<string>)
    requires parts != [] && NoSlash(parts)
    ensures Split(Join(parts)) == parts
  {
    SplitWord(parts[0]);
    if |parts| > 1 {
      SplitConcat(parts[0], Join(parts[1..]));
      SplitJoin(parts[1..]);
    }
  }

  /** The last position of a part. */
  function LastPlace(parts: seq<string>, x: string): (k: nat)
    requires x in parts
    ensures k < |parts| && parts[k] == x && forall m | k < m < |parts| :: parts[m] != x
  {
    var n := |parts| - 1;
    if parts[n] == x then n
    else
      assert parts == parts[..n] + [parts[n]];
      LastPlace(parts[..n], x)
  }

  /** The parts after the last one that names the root directory; all of them when none does. */
  function AfterRoot(parts: seq<string>): (r: seq<string>)
    ensures |r| <= |parts| && r == parts[|parts| - |r|..] && ROOT !in r
    ensures ROOT !in parts ==> r == parts
    ensures ROOT in parts ==> |r| < |parts| && parts[|parts| - |r| - 1] == ROOT
  {
    if ROOT in parts then parts[LastPlace(parts, ROOT) + 1..] else parts
  }

  function Normalize(id: string): string {
    if ROOT in Split(id) then Join(AfterRoot(Split(id))) else id
  }

  predicate Normal(id: string) {
    Normalize(id) == id
  }

  lemma NormalExactly(id: string)
    ensures Normal(id) <==> ROOT !in Split(id)
  {
    if ROOT in Split(id) {
      NormalizeSplit(id);
    }
  }

  /** A normal form has no part that names the root directory. */
  lemma NormalizeSplit(id: string)
    ensures ROOT !in Split(Normalize(id))
  {
    var r := AfterRoot(Split(id));
    SplitNoSlash(id);
    if ROOT in Split(id) && r != [] {
      SplitJoin(r);
    }
  }

  lemma NormalizeIdempotent(id: string)
    ensures Normal(Normalize(id))
  {
    NormalizeSplit(id);
  }

  // ----- The list's dominant spelling -----

  /** What an entry has in front of its normal form. */
  function StylePrefix(sample: string): (prefix: string)
    ensures prefix <= sample
  {
    NormalizeShorter(sample);
    sample[..|sample| - |Normalize(sample)|]
  }

  lemma NormalizeShorter(id: string)
    ensures |Normalize(id)| <= |id|
  {
    var parts, r := Split(id), AfterRoot(Split(id));
    if ROOT in parts && r != [] {
      SplitAtRoot(id);
    }
  }

  /** A path that goes on after the root directory is its front, a slash and its normal form. */
  lemma SplitAtRoot(id: string)
    requires ROOT in Split(id) && AfterRoot(Split(id)) != []
    ensures var front := Split(id)[..|Split(id)| - |AfterRoot(Split(id))|];
            && front != [] && front[|front| - 1] == ROOT && NoSlash(front)
            && id == Join(front) + "/" + Normalize(id)
  {
    SplitNoSlash(id);
    JoinSplit(id);
    JoinAtRoot(Split(id));
  }

  lemma JoinAtRoot(parts: seq<string>)
    requires ROOT in parts && AfterRoot(parts) != [] && NoSlash(parts)
    ensures var front := parts[..|parts| - |AfterRoot(parts)|];
            && front != [] && front[|front| - 1] == ROOT && NoSlash(front)
            && Join(parts) == Join(front) + "/" + Join(AfterRoot(parts))
  {
    var r := AfterRoot(parts);
    var front := parts[..|parts| - |r|];
    JoinTwo(parts, front, r);
    forall p | p in front
      ensures '/' !in p
    {
      assert p in parts;
    }
  }

  lemma JoinTwo(parts: seq<string>, front: seq<string>, back: seq<string>)
    requires front != [] && back != [] && |back| <= |parts|
    requires front == parts[..|parts| - |back|] && back == parts[|parts| - |back|..]
    ensures Join(parts) == Join(front) + "/" + Join(back)
  {
    assert parts == front + back;
    JoinConcat(front, back);
  }

  lemma LastPlaceConcat(p: seq<string>, q: seq<string>, x: string)
    requires p != [] && p[|p| - 1] == x && x !in q
    ensures x in p + q && LastPlace(p + q, x) == |p| - 1
  {
    var all := p + q;
    assert all[|p| - 1] == x;
    assert forall m | |p| <= m < |all| :: all[m] == q[m - |p|];
  }

  lemma AfterRootConcat(p: seq<string>, q: seq<string>)
    requires p != [] && p[|p| - 1] == ROOT && ROOT !in q
    ensures AfterRoot(p + q) == q
  {
    LastPlaceConcat(p, q, ROOT);
  }

  /** The path ends with the root directory itself, with nothing after it. */
  predicate EndsAtRoot(id: string) {
    Split(id)[|Split(id)| - 1] == ROOT
  }

  /** What follows a front that ends with the root directory. */
  lemma NormalizeAfterFront(front: seq<string>, back: string)
    requires front != [] && front[|front| - 1] == ROOT && NoSlash(front)
    ensures Split(Join(front) + "/" + back) == front + Split(back)
    ensures ROOT !in Split(back) ==> Normalize(Join(front) + "/" + back) == back
  {
    SplitConcat(Join(front), back);
    SplitJoin(front);
    if ROOT !in Split(back) {
      AfterRootConcat(front, Split(back));
      JoinSplit(back);
      assert (front + Split(back))[|front| - 1] == ROOT;
    }
  }

  /** Parts go on after the root directory when the last one is another. */
  lemma GoesOn(parts: seq<string>)
    requires ROOT in parts && parts[|parts| - 1] != ROOT
    ensures AfterRoot(parts) != []
  {
    var r := AfterRoot(parts);
    assert parts[|parts| - |r| - 1] == ROOT;
  }

  /** A path up to the root directory, and its normal form after it. */
  lemma RootFront(p: string) returns (front: seq<string>)
    requires ROOT in Split(p) && !EndsAtRoot(p)
    ensures front != [] && front[|front| - 1] == ROOT && NoSlash(front) && p == Join(front) + "/" + Normalize(p)
  {
    GoesOn(Split(p));
    SplitAtRoot(p);
    var parts := Split(p);
    var n := |parts| - |AfterRoot(parts)|;
    front := parts[..n];
  }

  /** The spelling of a sample is a path that ends with the root directory. */
  lemma StyleFront(sample: string) returns (front: seq<string>)
    requires !Normal(sample) && !EndsAtRoot(sample)
    ensures front != [] && front[|front| - 1] == ROOT && NoSlash(front)
    ensures StylePrefix(sample) == Join(front) + "/"
  {
    NormalExactly(sample);
    front := RootFront(sample);
  }

  lemma StylePrefixAgrees(sample: string, id: string)
    requires !Normal(sample) && !EndsAtRoot(sample) && Normal(id)
    ensures Normalize(StylePrefix(sample) + id) == id && EndsWith(StylePrefix(sample), "/")
  {
    NormalExactly(id);
    var front := StyleFront(sample);
    NormalizeAfterFront(front, id);
  }

  /**
   Putting the spelling of a sample entry in front of a normal form leaves the normal form
   unchanged for every node ID, exactly when the sample does not stop at the root directory.
   */
  lemma StylePrefixExactly(sample: string)
    requires !Normal(sample)
    ensures (forall id | Normal(id) :: Normalize(StylePrefix(sample) + id) == id) <==> !EndsAtRoot(sample)
  {
    if EndsAtRoot(sample) {
      BrokenStyle(sample);
      SplitWord("x");
      NormalExactly("x");
      assert Normal("x");
    } else {
      forall id | Normal(id) ensures Normalize(StylePrefix(sample) + id) == id {
        StylePrefixAgrees(sample, id);
      }
    }
  }

  lemma {:induction false} JoinLonger(parts: seq<string>)
    requires parts != []
    ensures |Join(parts)| >= |parts[|parts| - 1]|
  {
    if |parts| > 1 {
      JoinLonger(parts[1..]);
    }
  }

  lemma {:induction false} SplitAppend(s: string, c: char)
    requires c != '/'
    ensures Split(s + [c]) == Append(Split(s), c)
  {
    if s == "" {
      SplitCons(c, "");
      assert s + [c] == [c] + "";
    } else {
      SplitAppend(s[1..], c);
      assert s + [c] == [s[0]] + (s[1..] + [c]);
      SplitCons(s[0], s[1..] + [c]);
      PrependAppend(s[0], Split(s[1..]), c);
    }
  }

  /** The parts with one character put at the end of the last one. */
  function Append(parts: seq<string>, c: char): seq<string>
    requires parts != []
  {
    parts[..|parts| - 1] + [parts[|parts| - 1] + [c]]
  }

  lemma PrependAppend(d: char, parts: seq<string>, c: char)
    requires parts != []
    ensures Prepend(d, Append(parts, c)) == Append(Prepend(d, parts), c)
  {
    var n := |parts| - 1;
    var left, right := Prepend(d, Append(parts, c)), Append(Prepend(d, parts), c);
    if d != '/' && n == 0 {
      assert [d] + (parts[0] + [c]) == ([d] + parts[0]) + [c];
      assert left == [[d] + (parts[0] + [c])] && right == [([d] + parts[0]) + [c]];
    } else if d != '/' {
      assert Append(parts, c)[1..] == parts[1..n] + [parts[n] + [c]];
    }
  }

  lemma BrokenStyle(sample: string)
    requires EndsAtRoot(sample)
    ensures Normalize(StylePrefix(sample) + "x") != "x"
  {
    var parts := Split(sample);
    var n := |parts| - 1;
    assert AfterRoot(parts) == [];
    assert StylePrefix(sample) == sample;
    SplitAppend(sample, 'x');
    var after := Split(sample + "x");
    JoinSplit(sample + "x");
    JoinLonger(after);
    assert after[n] == ROOT + "x" != ROOT;
    var r := AfterRoot(after);
    assert r != [] && r[|r| - 1] == after[n];
    JoinLonger(r);
  }

  // ----- The plugin's lookup set -----

  /** Every entry as written, and its suffix after the root directory. */
  function SuffixSet(entries: set<string>): set<string> {
    entries + set e | e in entries && ROOT in Split(e) :: Normalize(e)
  }

  function NormalForms(entries: set<string>): set<string> {
    set e | e in entries :: Normalize(e)
  }

  /** For a normal node ID the plugin's lookup and the reconciler's comparison agree. */
  lemma LookupAgrees(entries: set<string>, id: string)
    requires Normal(id)
    ensures id in SuffixSet(entries) <==> id in NormalForms(entries)
  {
    if id in NormalForms(entries) {
      var e :| e in entries && Normalize(e) == id;
      assert ROOT in Split(e) || e == id;
    }
  }
}
