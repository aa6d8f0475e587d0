/**
 Walking a binary geometry with a bounded iterator: what the visitors are shown, for any
 buffer, and for the buffers the writer produces.
 */
module WkbTraversal {
  import opened Options
  import opened Wkb

  /** A visitor call; lengths and counts are the 32-bit numbers the visitor is given. */
  datatype Visit =
    | EachPoint(start: nat)
    | Ring(geometry: nat, start: nat, length: int, numRings: int, numPoints: int)
    | Single(start: nat, length: int, kind: int)
    | Whole(start: nat, length: int, kind: int, numRings: int)

  /**
   How a walk ends, with the visits made until then; an error does not take them back.  When
   the limit was hit by the points of a ring, `ring` is where they start.
   */
  datatype Reading =
    | Done(position: nat, visits: seq<Visit>)
    | BeyondLimit(ring: Option<nat>, visits: seq<Visit>)
    | UnexpectedType(visits: seq<Visit>)

  /** A reading with earlier visits in front. */
  function After(seen: seq<Visit>, r: Reading): Reading {
    r.(visits := seen + r.visits)
  }

  lemma AfterTwice(a: seq<Visit>, b: seq<Visit>, r: Reading)
    ensures After(a, After(b, r)) == After(a + b, r)
  {
    assert a + (b + r.visits) == (a + b) + r.visits;
  }

  function Wrap(n: int): int {
    (n + 0x8000_0000) % 0x1_0000_0000 - 0x8000_0000
  }

  ghost predicate Progress(buffer: Bytes, position: nat, r: Reading) {
    r.Done? ==> position <= r.position <= |buffer|
  }

  // In what follows `each` says whether the visitors include one for each point.

  function PointVisits(position: nat, each: bool): seq<Visit> {
    if each then [EachPoint(position)] else []
  }

  function ReadPoints(buffer: Bytes, position: nat, n: int, each: bool): (r: Reading)
    requires position <= |buffer|
    ensures Progress(buffer, position, r)
    decreases |buffer| - position
  {
    if n <= 0 then Done(position, [])
    else if position + POINT_SIZE > |buffer| then BeyondLimit(None, [])
    else After(PointVisits(position, each), ReadPoints(buffer, position + POINT_SIZE, n - 1, each))
  }

  /** The length of a ring, as the 32-bit number it is computed in. */
  function RingLength(n: int): int {
    Wrap(n * POINT_SIZE)
  }

  /**
   The points of a ring: one at a time when they are visited, and otherwise skipped in one step.
   A negative length is a huge unsigned one, which no buffer has left.
   */
  function ReadRingPoints(buffer: Bytes, position: nat, n: int, each: bool): (r: Reading)
    requires position <= |buffer|
    ensures Progress(buffer, position, r)
  {
    if each then
      match ReadPoints(buffer, position, n, true)
      case BeyondLimit(_, visits) => BeyondLimit(Some(position), visits)
      case other => other
    else if 0 <= RingLength(n) <= |buffer| - position then Done(position + RingLength(n), [])
    else BeyondLimit(Some(position), [])
  }

  /** A count, the visit of the ring, and its points. */
  function ReadRing(buffer: Bytes, position: nat, geometry: nat, total: int, each: bool): (r: Reading)
    requires position <= |buffer|
    ensures Progress(buffer, position, r)
  {
    if position + 4 > |buffer| then BeyondLimit(None, [])
    else
      var n := Signed(buffer[position..position + 4]);
      After([Ring(geometry, position + 4, RingLength(n), total, n)], ReadRingPoints(buffer, position + 4, n, each))
  }

  function ReadRings(buffer: Bytes, position: nat, geometry: nat, total: int, n: int, each: bool): (r: Reading)
    requires position <= |buffer|
    ensures Progress(buffer, position, r)
    decreases if n > 0 then n else 0
  {
    if n <= 0 then Done(position, [])
    else
      match ReadRing(buffer, position, geometry, total, each)
      case Done(end, visits) => After(visits, ReadRings(buffer, end, geometry, total, n - 1, each))
      case error => error
  }

  function ReadParts(buffer: Bytes, position: nat, n: int, each: bool): (r: Reading)
    requires position <= |buffer|
    ensures Progress(buffer, position, r)
    decreases |buffer| - position, 1
  {
    if n <= 0 then Done(position, [])
    else
      match Read(buffer, position, true, each)
      case Done(end, visits) => After(visits, ReadParts(buffer, end, n - 1, each))
      case error => error
  }

  /** What follows the header of a geometry that starts at `geometry`. */
  function ReadContent(buffer: Bytes, position: nat, geometry: nat, kind: int, each: bool): (r: Reading)
    requires position <= |buffer|
    ensures Progress(buffer, position, r)
    decreases |buffer| - position, 2
  {
    if kind == POINT then
      if position + POINT_SIZE > |buffer| then BeyondLimit(None, [])
      else Done(position + POINT_SIZE, PointVisits(position, each))
    else if !(kind == LINE_STRING || kind == POLYGON || IsCollection(kind)) then UnexpectedType([])
    else if position + 4 > |buffer| then BeyondLimit(None, [])
    else
      var n := Signed(buffer[position..position + 4]);
      if kind == LINE_STRING then ReadPoints(buffer, position + 4, n, each)
      else if kind == POLYGON then ReadRings(buffer, position + 4, geometry, n, n, each)
      else ReadParts(buffer, position + 4, n, each)
  }

  /** The size of the header at `position`: nine bytes when the type carries the flag. */
  function HeaderSize(buffer: Bytes, position: nat): (n: nat)
    requires position + 5 <= |buffer|
    ensures n == 5 || n == 9
  {
    if HasFlag(Unsigned(buffer[position + 1..position + 5])) then 9 else 5
  }

  function RingCount(buffer: Bytes, position: nat, kind: int): int {
    if kind == POLYGON && position + 4 <= |buffer| then Signed(buffer[position..position + 4]) else 0
  }

  /** The last visit of a geometry. */
  function Closing(start: nat, end: nat, kind: int, numRings: int, nested: bool): seq<Visit>
    requires start <= end
  {
    if !nested then [Whole(start, end - start, kind, numRings)]
    else if !IsCollection(kind) then [Single(start, end - start, kind)]
    else []
  }

  function Close(r: Reading, start: nat, kind: int, numRings: int, nested: bool): Reading
    requires r.Done? ==> start <= r.position
  {
    match r
    case Done(end, visits) => Done(end, visits + Closing(start, end, kind, numRings, nested))
    case error => error
  }

  function Read(buffer: Bytes, position: nat, nested: bool, each: bool): (r: Reading)
    requires position <= |buffer|
    ensures Progress(buffer, position, r) && (r.Done? ==> position < r.position)
    decreases |buffer| - position, 0
  {
    if position + 5 > |buffer| || position + HeaderSize(buffer, position) > |buffer| then BeyondLimit(None, [])
    else
      var kind := ClearFlag(Unsigned(buffer[position + 1..position + 5]));
      var content := position + HeaderSize(buffer, position);
      var r := ReadContent(buffer, content, position, kind, each);
      Close(r, position, kind, RingCount(buffer, content, kind), nested)
  }

  // ----- The iterator -----

  class Iterator {
    const buffer: Bytes
    var position: nat

    ghost predicate Valid()
      reads this
    {
      position <= |buffer|
    }

    constructor (buffer: Bytes)
      ensures Valid() && this.buffer == buffer && position == 0
    {
      this.buffer := buffer;
      position := 0;
    }

    /** Moves forward, or stays where it is when fewer bytes remain. */
    method Increment(bytes: nat) returns (ok: bool)
      requires Valid()
      modifies this
      ensures Valid()
      ensures ok <==> bytes <= |buffer| - old(position)
      ensures position == old(position) + if ok then bytes else 0
    {
      ok := |buffer| - position >= bytes;
      if ok {
        position := position + bytes;
      }
    }

    method WalkPoints(n: int, each: bool) returns (r: Reading)
      requires Valid()
      modifies this
      ensures Valid() && r == ReadPoints(buffer, old(position), n, each) && (r.Done? ==> position == r.position)
    {
      var visits: seq<Visit> := [];
      var i := 0;
      while i < n
        invariant Valid() && (n > 0 ==> i <= n)
        invariant ReadPoints(buffer, old(position), n, each) == After(visits, ReadPoints(buffer, position, n - i, each))
      {
        var start := position;
        var ok := Increment(POINT_SIZE);
        if !ok {
          return BeyondLimit(None, visits);
        }
        AfterTwice(visits, PointVisits(start, each), ReadPoints(buffer, position, n - i - 1, each));
        visits := visits + PointVisits(start, each);
        i := i + 1;
      }
      r := Done(position, visits);
    }

    method WalkRing(geometry: nat, total: int, each: bool) returns (r: Reading)
      requires Valid()
      modifies this
      ensures Valid() && r == ReadRing(buffer, old(position), geometry, total, each)
      ensures r.Done? ==> position == r.position
    {
      if position + 4 > |buffer| {
        return BeyondLimit(None, []);
      }
      var n := Signed(buffer[position..position + 4]);
      var ok := Increment(4);
      var ring := Ring(geometry, position, RingLength(n), total, n);
      var start := position;
      if each {
        r := WalkPoints(n, true);
        if r.BeyondLimit? {
          r := BeyondLimit(Some(start), r.visits);
        }
      } else {
        ok := RingLength(n) >= 0;
        if ok {
          ok := Increment(RingLength(n));
        }
        r := if ok then Done(position, []) else BeyondLimit(Some(start), []);
      }
      r := After([ring], r);
    }

    method WalkRings(geometry: nat, total: int, each: bool) returns (r: Reading)
      requires Valid()
      modifies this
      ensures Valid() && r == ReadRings(buffer, old(position), geometry, total, total, each)
      ensures r.Done? ==> position == r.position
    {
      var visits: seq<Visit> := [];
      var i := 0;
      while i < total
        invariant Valid() && (total > 0 ==> i <= total)
        invariant ReadRings(buffer, old(position), geometry, total, total, each) ==
                  After(visits, ReadRings(buffer, position, geometry, total, total - i, each))
      {
        var ring := WalkRing(geometry, total, each);
        if !ring.Done? {
          return After(visits, ring);
        }
        AfterTwice(visits, ring.visits, ReadRings(buffer, position, geometry, total, total - i - 1, each));
        visits := visits + ring.visits;
        i := i + 1;
      }
      r := Done(position, visits);
    }

    method WalkParts(n: int, each: bool) returns (r: Reading)
      requires Valid()
      modifies this
      ensures Valid() && r == ReadParts(buffer, old(position), n, each) && (r.Done? ==> position == r.position)
      decreases |buffer| - position, 1
    {
      var visits: seq<Visit> := [];
      var i := 0;
      while i < n
        invariant Valid() && (n > 0 ==> i <= n) && old(position) <= position
        invariant ReadParts(buffer, old(position), n, each) == After(visits, ReadParts(buffer, position, n - i, each))
      {
        var part := Walk(true, each);
        if !part.Done? {
          return After(visits, part);
        }
        AfterTwice(visits, part.visits, ReadParts(buffer, position, n - i - 1, each));
        visits := visits + part.visits;
        i := i + 1;
      }
      r := Done(position, visits);
    }

    method WalkContent(geometry: nat, kind: int, each: bool) returns (r: Reading)
      requires Valid()
      modifies this
      ensures Valid() && r == ReadContent(buffer, old(position), geometry, kind, each)
      ensures r.Done? ==> position == r.position
      decreases |buffer| - position, 2
    {
      if kind == POINT {
        var start := position;
        var ok := Increment(POINT_SIZE);
        return if ok then Done(position, PointVisits(start, each)) else BeyondLimit(None, []);
      }
      if kind != LINE_STRING && kind != POLYGON && !IsCollection(kind) {
        return UnexpectedType([]);
      }
      if position + 4 > |buffer| {
        return BeyondLimit(None, []);
      }
      var n := Signed(buffer[position..position + 4]);
      var ok := Increment(4);
      if kind == LINE_STRING {
        r := WalkPoints(n, each);
      } else if kind == POLYGON {
        r := WalkRings(geometry, n, each);
      } else {
        r := WalkParts(n, each);
      }
    }

    /** One geometry, whatever the bytes are, with a visitor for each point or without. */
    method Walk(nested: bool, each: bool) returns (r: Reading)
      requires Valid()
      modifies this
      ensures Valid() && r == Read(buffer, old(position), nested, each) && (r.Done? ==> position == r.position)
      decreases |buffer| - position, 0
    {
      var start := position;
      var ok := Increment(1);
      if !ok || position + 4 > |buffer| {
        return BeyondLimit(None, []);
      }
      var kind := Unsigned(buffer[position..position + 4]);
      if HasFlag(kind) {
        kind := ClearFlag(kind);
        ok := Increment(4);
      }
      ok := Increment(4);
      if !ok {
        return BeyondLimit(None, []);
      }
      var numRings := RingCount(buffer, position, kind);
      r := WalkContent(start, kind, each);
      r := Close(r, start, kind, numRings, nested);
    }
  }
}
