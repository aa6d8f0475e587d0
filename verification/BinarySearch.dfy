/** The search over a sorted array that says where a missing element would go. */
module BinarySearch {

  newtype Int32 = x: int | -0x8000_0000 <= x < 0x8000_0000

  /** Smaller elements first, then equal ones, then larger ones, from `start` on. */
  ghost predicate Sorted<T>(a: seq<T>, start: int, compare: T -> int) {
    forall i, j | 0 <= start <= i < j < |a| ::
      (compare(a[j]) < 0 ==> compare(a[i]) < 0) && (compare(a[j]) == 0 ==> compare(a[i]) <= 0)
  }

  /** Everything before the point is smaller and everything from it on is larger. */
  ghost predicate IsInsertionPoint<T>(a: seq<T>, start: int, compare: T -> int, p: int) {
    && start <= p && (p <= |a| || p == start)
    && (forall i | 0 <= start <= i < p && i < |a| :: compare(a[i]) < 0)
    && (forall i | 0 <= p <= i < |a| :: compare(a[i]) > 0)
  }

  lemma InsertionPointUnique<T>(a: seq<T>, start: int, compare: T -> int, p: int, q: int)
    requires start >= 0 && IsInsertionPoint(a, start, compare, p) && IsInsertionPoint(a, start, compare, q)
    ensures p == q
  {
    assert p < |a| ==> compare(a[p]) > 0;
    assert q < |a| ==> compare(a[q]) > 0;
  }

  /** An index of an equal element, or the complement of the insertion point; no step leaves 32 bits. */
  method Search<T>(a: array<T>, start: Int32, length: Int32, compare: T -> int) returns (r: Int32)
    requires 0 <= start && 0 <= length && length as int <= a.Length
    requires Sorted(a[..length], start as int, compare)
    ensures r >= 0 ==> start <= r < length && compare(a[r]) == 0
    ensures r < 0 ==> IsInsertionPoint(a[..length], start as int, compare, -1 - r as int)
  {
    var lo, hi := start, length - 1;
    while lo <= hi
      invariant start <= lo && hi < length && (lo <= hi + 1 || lo == start)
      invariant forall i | start as int <= i < lo as int && i < length as int :: compare(a[i]) < 0
      invariant forall i | lo as int <= i < length as int && hi as int < i :: compare(a[i]) > 0
      decreases hi as int - lo as int
    {
      var i := lo + (hi - lo) / 2;
      var c := compare(a[i]);
      ghost var s := a[..length];
      assert c == compare(s[i]);
      if c == 0 {
        return i;
      }
      if c < 0 {
        assert forall k | start as int <= k < i as int :: compare(s[k]) < 0;
        lo := i + 1;
      } else {
        assert forall k | (i as int) < k < length as int :: compare(s[k]) > 0;
        hi := i - 1;
      }
    }
    r := -1 - lo;
  }
}
