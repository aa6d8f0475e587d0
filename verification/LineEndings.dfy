/**
 Line endings of a source file: the checker works on line feeds only and restores the file's
 own endings afterwards.
 */
module LineEndings {

  const CR := '\r'
  const LF := '\n'

  predicate PairAt(s: string, i: int) {
    0 <= i && i + 1 < |s| && s[i] == CR && s[i + 1] == LF
  }

  predicate HasPair(s: string) {
    exists i | 0 <= i < |s| :: PairAt(s, i)
  }

  /** Replaces each carriage return that is followed by a line feed, together with it, left to right. */
  function ReplacePairs(s: string, repl: string): string {
    if s == "" then ""
    else if PairAt(s, 0) then repl + ReplacePairs(s[2..], repl)
    else [s[0]] + ReplacePairs(s[1..], repl)
  }

  function ReplaceFeeds(s: string, repl: string): string {
    if s == "" then ""
    else (if s[0] == LF then repl else [s[0]]) + ReplaceFeeds(s[1..], repl)
  }

  function Newline(s: string): string {
    if HasPair(s) then [CR, LF] else [LF]
  }

  /** The check for mixed endings, on what is left after deleting every pair. */
  predicate Accepts(s: string) {
    var left := ReplacePairs(s, "");
    CR !in left && (HasPair(s) ==> LF !in left)
  }

  function ToFeeds(s: string): string {
    ReplacePairs(s, [LF])
  }

  function Restore(s: string, newline: string): string {
    ReplaceFeeds(s, newline)
  }

  /** Every carriage return is half of a pair; with `strict`, every line feed is too. */
  ghost predicate Uniform(s: string, strict: bool) {
    && (forall i | 0 <= i < |s| && s[i] == CR :: PairAt(s, i))
    && (strict ==> forall i | 0 <= i < |s| && s[i] == LF :: PairAt(s, i - 1))
  }

  /** What is left after deleting pairs has no lone character exactly when none stood alone before. */
  lemma {:induction false} LeftoversExactly(s: string)
    ensures CR !in ReplacePairs(s, "") <==> Uniform(s, false)
    ensures CR !in ReplacePairs(s, "") && LF !in ReplacePairs(s, "") <==> Uniform(s, true)
  {
    if s != "" {
      var d := if PairAt(s, 0) then 2 else 1;
      LeftoversExactly(s[d..]);
      UniformTail(s, d, false);
      UniformTail(s, d, true);
    }
  }

  lemma UniformTail(s: string, d: nat, strict: bool)
    requires s != "" && d == (if PairAt(s, 0) then 2 else 1)
    ensures Uniform(s, strict) <==>
            Uniform(s[d..], strict) && (d == 1 ==> s[0] != CR && (strict ==> s[0] != LF))
  {
    var t := s[d..];
    assert forall i | 0 <= i < |t| :: t[i] == s[i + d];
    assert forall i :: PairAt(t, i) <==> 0 <= i && PairAt(s, i + d);
    if Uniform(s, strict) {
      forall i | 0 <= i < |t| && t[i] == CR ensures PairAt(t, i) {
        assert PairAt(s, i + d);
      }
      if strict {
        forall i | 0 <= i < |t| && t[i] == LF ensures PairAt(t, i - 1) {
          assert PairAt(s, i + d - 1);
        }
      }
    }
    if Uniform(t, strict) && (d == 1 ==> s[0] != CR && (strict ==> s[0] != LF)) {
      forall i | 0 <= i < |s| && s[i] == CR ensures PairAt(s, i) {
        if i >= d {
          assert PairAt(t, i - d);
        }
      }
      if strict {
        forall i | 0 <= i < |s| && s[i] == LF ensures PairAt(s, i - 1) {
          if i >= d {
            assert PairAt(t, i - d - 1);
          }
        }
      }
    }
  }

  /** The check accepts exactly the files whose endings are all of one kind. */
  lemma AcceptsExactly(s: string)
    ensures Accepts(s) <==> Uniform(s, HasPair(s))
  {
    LeftoversExactly(s);
  }

  lemma {:induction false} FeedsOnly(s: string)
    requires Uniform(s, false)
    ensures CR !in ToFeeds(s)
  {
    if s != "" {
      var d := if PairAt(s, 0) then 2 else 1;
      UniformTail(s, d, false);
      FeedsOnly(s[d..]);
    }
  }

  lemma {:induction false} RoundTripPairs(s: string)
    requires Uniform(s, true)
    ensures Restore(ToFeeds(s), [CR, LF]) == s
  {
    if s != "" {
      var d := if PairAt(s, 0) then 2 else 1;
      UniformTail(s, d, true);
      RoundTripPairs(s[d..]);
      var rest := ToFeeds(s[d..]);
      if d == 2 {
        assert s == [CR, LF] + s[2..];
        assert ([LF] + rest)[1..] == rest;
      } else {
        assert s == [s[0]] + s[1..];
        assert ([s[0]] + rest)[1..] == rest;
      }
    }
  }

  lemma {:induction false} RoundTripFeeds(s: string)
    requires CR !in s
    ensures ToFeeds(s) == s && Restore(s, [LF]) == s
  {
    if s != "" {
      RoundTripFeeds(s[1..]);
      assert s == [s[0]] + s[1..];
    }
  }

  /** Reading with line feeds and writing back gives every accepted file back unchanged. */
  lemma RoundTrip(s: string)
    requires Accepts(s)
    ensures Restore(ToFeeds(s), Newline(s)) == s
  {
    AcceptsExactly(s);
    if HasPair(s) {
      RoundTripPairs(s);
    } else {
      assert forall i | 0 <= i < |s| :: !PairAt(s, i);
      RoundTripFeeds(s);
    }
  }

  /** Text edited on line feeds survives being written with either ending and read again. */
  lemma {:induction false} WriteThenRead(t: string, newline: string)
    requires CR !in t && (newline == [LF] || newline == [CR, LF])
    ensures ToFeeds(Restore(t, newline)) == t
  {
    if t != "" {
      WriteThenRead(t[1..], newline);
      var rest := Restore(t[1..], newline);
      assert t == [t[0]] + t[1..];
      if t[0] != LF {
        assert ([t[0]] + rest)[1..] == rest;
      } else if newline == [LF] {
        assert ([LF] + rest)[1..] == rest;
      } else {
        assert ([CR, LF] + rest)[2..] == rest;
      }
    }
  }
}
