/** Error codes as integer literals with their digits in groups of three. */
module ErrorCodeLiteral {
  import Text

  predicate IsDigit(c: char) {
    '0' <= c <= '9'
  }

  predicate IsDecimal(s: string) {
    s != "" && forall i | 0 <= i < |s| :: IsDigit(s[i])
  }

  predicate IsI32(n: int) {
    -0x8000_0000 <= n < 0x8000_0000
  }

  function Digit(d: nat): char
    requires d < 10
  {
    '0' + d as char
  }

  function Decimal(n: nat): (s: string)
    ensures IsDecimal(s)
  {
    if n < 10 then [Digit(n)] else Decimal(n / 10) + [Digit(n % 10)]
  }

  function Abs(n: int): nat {
    if n < 0 then -n else n
  }

  function Sign(n: int): string {
    if n < 0 then "-" else ""
  }

  /** The plain decimal text. */
  function Plain(n: int): string {
    Sign(n) + Decimal(Abs(n))
  }

  function ParseDigits(s: string): nat
    requires forall i | 0 <= i < |s| :: IsDigit(s[i])
  {
    if s == "" then 0
    else
      var n := |s| - 1;
      assert IsDigit(s[n]);
      10 * ParseDigits(s[..n]) + (s[n] - '0') as nat
  }

  /** A sign and digits, with underscores ignored. */
  function Parse(s: string): int
    requires s != "" && IsDecimal(WithoutUnderscores(if s[0] == '-' then s[1..] else s))
  {
    if s[0] == '-' then -(ParseDigits(WithoutUnderscores(s[1..])) as int) else ParseDigits(WithoutUnderscores(s))
  }

  function WithoutUnderscores(s: string): string {
    if s == "" then "" else (if s[0] == '_' then "" else [s[0]]) + WithoutUnderscores(s[1..])
  }

  function Reversed(s: string): (r: string)
    ensures |r| == |s| && forall i | 0 <= i < |s| :: r[i] == s[|s| - 1 - i]
  {
    if s == "" then "" else Reversed(s[1..]) + [s[0]]
  }

  /** Three digits at the end, and an underscore between them and the rest. */
  function Grouped(s: string): string {
    if |s| <= 3 then s else Grouped(s[..|s| - 3]) + "_" + s[|s| - 3..]
  }

  function Literal(n: int): string {
    Sign(n) + Grouped(Decimal(Abs(n)))
  }

  /** What stands between a new first digit and the digits after it. */
  function Mark(n: nat): string {
    if n > 0 && n % 3 == 0 then "_" else ""
  }

  lemma GroupedSplit(front: string, back: string)
    requires front != "" && |back| == 3
    ensures Grouped(front + back) == Grouped(front) + ("_" + back)
  {
    assert (front + back)[..|front|] == front && (front + back)[|front|..] == back;
    Text.Regroup(Grouped(front), "_", back);
  }

  lemma {:induction false} GroupedCons(c: char, s: string)
    ensures Grouped([c] + s) == [c] + Mark(|s|) + Grouped(s)
  {
    if |s| == 3 {
      GroupedSplit([c], s);
    } else if |s| > 3 {
      var front, back := s[..|s| - 3], s[|s| - 3..];
      assert s == front + back && |s| % 3 == |front| % 3;
      GroupedCons(c, front);
      GroupedSplit(front, back);
      GroupedSplit([c] + front, back);
      Text.Regroup([c], front, back);
      Text.Regroup([c] + Mark(|s|), Grouped(front), "_" + back);
    }
  }

  lemma ReversedSnoc(s: string, c: char)
    ensures Reversed(s + [c]) == [c] + Reversed(s)
  {
  }

  /** One step of the loop, seen from the end of the digits. */
  lemma GroupedStep(d: string, i: nat)
    requires i < |d|
    ensures Grouped(d[|d| - i - 1..]) ==
            [d[|d| - i - 1]] + Mark(i) + Grouped(d[|d| - i..])
  {
    assert d[|d| - i - 1..] == [d[|d| - i - 1]] + d[|d| - i..];
    GroupedCons(d[|d| - i - 1], d[|d| - i..]);
  }

  /** What the loop has after `i` characters of the digits and a sign before them. */
  function Tail(d: string, i: nat): string {
    if i <= |d| then Grouped(d[|d| - i..]) else "-" + Grouped(d)
  }

  lemma TailStep(d: string, i: nat, c: char)
    requires IsDecimal(d) && (if i < |d| then c == d[|d| - 1 - i] else i == |d| && c == '-')
    ensures Tail(d, i + 1) == [c] + (if c == '-' then "" else Mark(i)) + Tail(d, i)
  {
    if i < |d| {
      assert IsDigit(c);
      GroupedStep(d, i);
    } else {
      assert d[0..] == d;
    }
  }

  lemma Appended(result: string, mark: string, c: char)
    requires mark == "" || mark == "_"
    ensures Reversed(result + mark + [c]) == [c] + mark + Reversed(result)
  {
    if mark == "" {
      assert result + mark == result;
    } else {
      ReversedSnoc(result, '_');
    }
    ReversedSnoc(result + mark, c);
  }

  /** The last characters first, with an underscore after every three, and the result turned round. */
  method FormatWithUnderscores(num: int) returns (r: string)
    requires IsI32(num)
    ensures r == Literal(num)
  {
    var s := Plain(num);
    ghost var d := Decimal(Abs(num));
    var result := "";
    for i := 0 to |s|
      invariant Reversed(result) == Tail(d, i)
    {
      var c := s[|s| - 1 - i];
      TailStep(d, i, c);
      Appended(result, if c == '-' then "" else Mark(i), c);
      if i > 0 && i % 3 == 0 && c != '-' {
        result := result + "_";
      } else {
        assert result + "" == result;
      }
      result := result + [c];
    }
    assert d[0..] == d;
    r := Reversed(result);
  }

  // ----- What a literal says -----

  lemma {:induction false} WithoutUnderscoresJoined(a: string, b: string)
    ensures WithoutUnderscores(a + b) == WithoutUnderscores(a) + WithoutUnderscores(b)
  {
    if a == "" {
      assert a + b == b;
    } else {
      WithoutUnderscoresJoined(a[1..], b);
      assert (a + b)[1..] == a[1..] + b;
      Text.Regroup(if a[0] == '_' then "" else [a[0]], WithoutUnderscores(a[1..]), WithoutUnderscores(b));
    }
  }

  lemma DeletedAtEnd(a: string)
    ensures WithoutUnderscores(a + "_") == WithoutUnderscores(a)
  {
    WithoutUnderscoresJoined(a, "_");
    assert WithoutUnderscores(a) + "" == WithoutUnderscores(a);
  }

  lemma DeletedBetween(a: string, b: string)
    ensures WithoutUnderscores(a + "_" + b) == WithoutUnderscores(a) + WithoutUnderscores(b)
  {
    DeletedAtEnd(a);
    WithoutUnderscoresJoined(a + "_", b);
  }

  lemma {:induction false} NothingToDelete(s: string)
    requires forall i | 0 <= i < |s| :: s[i] != '_'
    ensures WithoutUnderscores(s) == s
  {
    if s != "" {
      NothingToDelete(s[1..]);
    }
  }

  lemma {:induction false} GroupedDeletesBack(s: string)
    requires forall i | 0 <= i < |s| :: s[i] != '_'
    ensures WithoutUnderscores(Grouped(s)) == s
  {
    if |s| <= 3 {
      NothingToDelete(s);
    } else {
      var front, back := s[..|s| - 3], s[|s| - 3..];
      GroupedDeletesBack(front);
      NothingToDelete(back);
      DeletedBetween(Grouped(front), back);
      assert front + back == s;
    }
  }

  lemma {:induction false} DecimalParses(n: nat)
    ensures ParseDigits(Decimal(n)) == n
  {
    if n >= 10 {
      DecimalParses(n / 10);
      assert (Decimal(n / 10) + [Digit(n % 10)])[..|Decimal(n / 10)|] == Decimal(n / 10);
    } else {
      assert [Digit(n)][..0] == "";
    }
  }

  /** Deleting the underscores gives the plain decimal text, and the literal reads as the number. */
  lemma LiteralReadsBack(n: int)
    ensures WithoutUnderscores(Literal(n)) == Plain(n)
    ensures Literal(n) != "" && IsDecimal(WithoutUnderscores(if Literal(n)[0] == '-' then Literal(n)[1..] else Literal(n)))
    ensures Parse(Literal(n)) == n
  {
    var d := Decimal(Abs(n));
    var g := Grouped(d);
    GroupedDeletesBack(d);
    WithoutUnderscoresJoined(Sign(n), g);
    NothingToDelete(Sign(n));
    DecimalParses(Abs(n));
    GroupShape(d);
    if n < 0 {
      assert Literal(n)[1..] == g;
    } else {
      assert Literal(n) == g;
    }
  }

  /** Counted from the end, exactly every fourth character is an underscore, and the first is a digit. */
  lemma {:induction false} GroupShape(s: string)
    requires IsDecimal(s)
    ensures var g := Grouped(s);
            && g != "" && IsDigit(g[0])
            && forall k | 0 <= k < |g| :: if k % 4 == 3 then g[|g| - 1 - k] == '_' else IsDigit(g[|g| - 1 - k])
  {
    if |s| > 3 {
      var n := |s| - 3;
      GroupShape(s[..n]);
      var h, g := Grouped(s[..n]), Grouped(s);
      assert |g| == |h| + 4;
      forall k | 0 <= k < |g|
        ensures if k % 4 == 3 then g[|g| - 1 - k] == '_' else IsDigit(g[|g| - 1 - k])
      {
        if k >= 4 {
          assert g[|g| - 1 - k] == h[|h| - 1 - (k - 4)];
          assert k % 4 == (k - 4) % 4;
        }
      }
    }
  }
}
