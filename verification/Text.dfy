/** Strings as sequences of characters: prefixes, stripping, and code-point order. */
module Text {

  predicate IsSpace(c: char) {
    c == ' ' || '\t' <= c <= '\r' || ('\U{1c}' <= c <= '\U{1f}') || c == '\U{85}' || c == '\U{a0}'
  }

  predicate IsAlnum(c: char) {
    '0' <= c <= '9' || 'A' <= c <= 'Z' || 'a' <= c <= 'z'
  }

  predicate IsWord(c: char) {
    IsAlnum(c) || c == '_'
  }

  /** A word starts at `i`. */
  predicate WordStart(s: string, i: int) {
    0 <= i <= |s| && (i == 0 || !IsWord(s[i - 1]))
  }

  /** The first position from `i` on whose character does not satisfy `p`. */
  function SkipWhile(s: string, i: nat, p: char -> bool): (e: nat)
    requires i <= |s|
    ensures i <= e <= |s| && (e < |s| ==> !p(s[e]))
    ensures forall k | i <= k < e :: p(s[k])
    decreases |s| - i
  {
    if i < |s| && p(s[i]) then SkipWhile(s, i + 1, p) else i
  }

  predicate EndsWith(s: string, suffix: string) {
    |suffix| <= |s| && s[|s| - |suffix|..] == suffix
  }

  /** `part` occurs in `s` at position `i`. */
  predicate OccursAt(s: string, part: string, i: int) {
    0 <= i <= |s| - |part| && forall k | 0 <= k < |part| :: s[i + k] == part[k]
  }

  predicate Contains(s: string, part: string) {
    exists i | 0 <= i <= |s| :: OccursAt(s, part, i)
  }

  /** Removes a prefix when it is there. */
  function Without(s: string, prefix: string): (r: string)
    ensures prefix <= s ==> prefix + r == s
    ensures !(prefix <= s) ==> r == s
  {
    if prefix <= s then s[|prefix|..] else s
  }

  function LStrip(s: string): (r: string)
    ensures |r| <= |s| && r == s[|s| - |r|..]
    ensures r != "" ==> !IsSpace(r[0])
    ensures forall i | 0 <= i < |s| - |r| :: IsSpace(s[i])
  {
    if s != "" && IsSpace(s[0]) then LStrip(s[1..]) else s
  }

  function RStrip(s: string): (r: string)
    ensures |r| <= |s| && r == s[..|r|]
    ensures r != "" ==> !IsSpace(r[|r| - 1])
    ensures forall i | |r| <= i < |s| :: IsSpace(s[i])
  {
    if s != "" && IsSpace(s[|s| - 1]) then RStrip(s[..|s| - 1]) else s
  }

  function Strip(s: string): string {
    RStrip(LStrip(s))
  }

  lemma ContainsInside(s: string, lo: nat, hi: nat, part: string)
    requires lo <= hi <= |s| && Contains(s[lo..hi], part)
    ensures Contains(s, part)
  {
    var i :| 0 <= i <= hi - lo && OccursAt(s[lo..hi], part, i);
    assert OccursAt(s, part, lo + i);
  }

  lemma StripInside(s: string, part: string)
    ensures Contains(Strip(s), part) ==> Contains(s, part)
  {
    var l, r := LStrip(s), Strip(s);
    var lo := |s| - |l|;
    var hi := lo + |r|;
    assert r == s[lo..hi];
    if Contains(r, part) {
      ContainsInside(s, lo, hi, part);
    }
  }

  /** Text with no space at either end is left alone. */
  lemma StripClean(s: string)
    requires s != "" ==> !IsSpace(s[0]) && !IsSpace(s[|s| - 1])
    ensures Strip(s) == s
  {
  }

  lemma StripIdempotent(s: string)
    ensures Strip(Strip(s)) == Strip(s)
  {
    var r := Strip(s);
    if r != "" {
      assert r[0] == LStrip(s)[0];
    }
    StripClean(r);
  }

  lemma StripFirst(s: string)
    requires s != "" && !IsSpace(s[0])
    ensures Strip(s) != "" && Strip(s)[0] == s[0]
  {
  }

  // ----- Code-point order -----

  predicate Less(a: string, b: string) {
    b != "" && (a == "" || a[0] < b[0] || (a[0] == b[0] && Less(a[1..], b[1..])))
  }

  lemma {:induction false} LessTransitive(a: string, b: string, c: string)
    requires Less(a, b) && Less(b, c)
    ensures Less(a, c)
  {
    if a != "" && a[0] == b[0] && b[0] == c[0] {
      LessTransitive(a[1..], b[1..], c[1..]);
    }
  }

  lemma {:induction false} LessTotal(a: string, b: string)
    ensures Less(a, b) || a == b || Less(b, a)
  {
    if a != "" && b != "" && a[0] == b[0] {
      LessTotal(a[1..], b[1..]);
      if a[1..] == b[1..] {
        assert a == [a[0]] + a[1..] && b == [b[0]] + b[1..];
      }
    }
  }

  lemma {:induction false} LessAsymmetric(a: string, b: string)
    requires Less(a, b)
    ensures !Less(b, a) && a != b
  {
    if a != "" && a[0] == b[0] {
      LessAsymmetric(a[1..], b[1..]);
    }
  }

  predicate Ascending(s: seq<string>) {
    forall i, k | 0 <= i < k < |s| :: Less(s[i], s[k])
  }

  function Elements<T>(s: seq<T>): set<T> {
    set x | x in s
  }

  /** The concatenation of what a function yields for each element. */
  function FlatMap<T, U>(s: seq<T>, f: T -> seq<U>): seq<U> {
    if s == [] then [] else FlatMap(s[..|s| - 1], f) + f(s[|s| - 1])
  }

  lemma Regroup<T>(a: seq<T>, b: seq<T>, c: seq<T>)
    ensures a + (b + c) == (a + b) + c
  {
  }

  lemma FlatMapSnoc<T, U>(s: seq<T>, x: T, f: T -> seq<U>)
    ensures FlatMap(s + [x], f) == FlatMap(s, f) + f(x)
  {
    assert (s + [x])[..|s|] == s;
  }

  lemma FlatMapOne<T, U>(x: T, f: T -> seq<U>)
    ensures FlatMap([x], f) == f(x)
  {
    FlatMapSnoc([], x, f);
    assert [] + [x] == [x];
  }

  lemma {:induction false} FlatMapConcat<T, U>(s: seq<T>, t: seq<T>, f: T -> seq<U>)
    ensures FlatMap(s + t, f) == FlatMap(s, f) + FlatMap(t, f)
  {
    if t == [] {
      assert s + t == s;
    } else {
      var front, x := t[..|t| - 1], t[|t| - 1];
      FlatMapConcat(s, front, f);
      assert s + t == (s + front) + [x] && t == front + [x];
      FlatMapSnoc(s + front, x, f);
      FlatMapSnoc(front, x, f);
      Regroup(FlatMap(s, f), FlatMap(front, f), f(x));
    }
  }

  lemma {:induction false} FlatMapMembers<T, U>(s: seq<T>, f: T -> seq<U>, y: U)
    ensures y in FlatMap(s, f) <==> exists x | x in s :: y in f(x)
  {
    if s != [] {
      FlatMapMembers(s[..|s| - 1], f, y);
      assert s == s[..|s| - 1] + [s[|s| - 1]];
    }
  }

  lemma {:induction false} FlatMapIdentity<T>(s: seq<T>, f: T -> seq<T>)
    requires forall x | x in s :: f(x) == [x]
    ensures FlatMap(s, f) == s
  {
    if s != [] {
      var front, x := s[..|s| - 1], s[|s| - 1];
      assert s == front + [x];
      FlatMapIdentity(front, f);
      FlatMapSnoc(front, x, f);
    }
  }

  /** Removes the elements at the end that satisfy a condition. */
  function TrimEnd<T>(s: seq<T>, blank: T -> bool): seq<T> {
    if s != [] && blank(s[|s| - 1]) then TrimEnd(s[..|s| - 1], blank) else s
  }

  lemma {:induction false} FlatMapTrim<T(!new), U>(s: seq<T>, blank: T -> bool, f: T -> seq<U>)
    requires forall x :: blank(x) ==> f(x) == []
    ensures FlatMap(TrimEnd(s, blank), f) == FlatMap(s, f)
  {
    if s != [] && blank(s[|s| - 1]) {
      FlatMapTrim(s[..|s| - 1], blank, f);
    }
  }

  lemma ElementsConcat<T>(s: seq<T>, t: seq<T>)
    ensures Elements(s + t) == Elements(s) + Elements(t)
  {
  }

  lemma NoElements<T>(s: seq<T>)
    ensures s == [] <==> Elements(s) == {}
  {
    if s != [] {
      assert s[0] in Elements(s);
    }
  }

  function Insert(x: string, s: seq<string>): (r: seq<string>)
    requires Ascending(s)
    ensures Ascending(r) && Elements(r) == Elements(s) + {x}
  {
    if s == [] then [x]
    else if x == s[0] then s
    else if Less(x, s[0]) then
      assert Ascending([x] + s) by {
        forall k | 0 <= k < |s| ensures Less(x, s[k]) {
          if k > 0 {
            LessTransitive(x, s[0], s[k]);
          }
        }
      }
      [x] + s
    else
      LessTotal(x, s[0]);
      var rest := Insert(x, s[1..]);
      assert Ascending([s[0]] + rest) by {
        forall k | 0 <= k < |rest| ensures Less(s[0], rest[k]) {
          assert rest[k] in Elements(rest);
        }
      }
      assert Elements([s[0]] + rest) == Elements(s) + {x} by {
        assert s == [s[0]] + s[1..];
        ElementsConcat([s[0]], rest);
        ElementsConcat([s[0]], s[1..]);
      }
      [s[0]] + rest
  }

  /** The distinct strings of a list in ascending order. */
  function SortedDistinct(s: seq<string>): (r: seq<string>)
    ensures Ascending(r) && Elements(r) == Elements(s)
  {
    if s == [] then []
    else
      assert s == [s[0]] + s[1..];
      Insert(s[0], SortedDistinct(s[1..]))
  }

  lemma AscendingHead(s: seq<string>, x: string)
    requires Ascending(s) && s != [] && x in s
    ensures x == s[0] || Less(s[0], x)
  {
  }

  /** An ascending list is determined by its elements. */
  lemma {:induction false} AscendingUnique(s: seq<string>, t: seq<string>)
    requires Ascending(s) && Ascending(t) && Elements(s) == Elements(t)
    ensures s == t
  {
    if s == [] || t == [] {
      NoElements(s);
      NoElements(t);
    } else {
      assert s[0] in Elements(s) && t[0] in Elements(t);
      AscendingHead(s, t[0]);
      AscendingHead(t, s[0]);
      if s[0] != t[0] {
        LessAsymmetric(s[0], t[0]);
      }
      AscendingTail(s);
      AscendingTail(t);
      AscendingUnique(s[1..], t[1..]);
      assert s == [s[0]] + s[1..] && t == [t[0]] + t[1..];
    }
  }

  lemma AscendingTail(s: seq<string>)
    requires Ascending(s) && s != []
    ensures Ascending(s[1..]) && Elements(s[1..]) == Elements(s) - {s[0]}
  {
    assert s == [s[0]] + s[1..];
    forall k | 0 < k < |s| ensures s[k] != s[0] {
      LessAsymmetric(s[0], s[k]);
    }
  }

  lemma AscendingDistinct(s: seq<string>, i: int, k: int)
    requires Ascending(s) && 0 <= i < |s| && 0 <= k < |s| && s[i] == s[k]
    ensures i == k
  {
    if i < k {
      LessAsymmetric(s[i], s[k]);
    } else if k < i {
      LessAsymmetric(s[k], s[i]);
    }
  }
}
