/** What a walk shows: which visits can point outside the buffer, and all of an encoded geometry in order. */
module WkbRoundTrip {
  import opened Options
  import opened Wkb
  import opened WkbTraversal

  // ----- What a visit may point at -----

  /** The bytes a visitor is told about: for a ring its points, and the length it is given. */
  ghost predicate Inside(buffer: Bytes, v: Visit) {
    match v
    case EachPoint(start) => start + POINT_SIZE <= |buffer|
    case Ring(_, start, length, _, n) =>
      && (n > 0 ==> start + n * POINT_SIZE <= |buffer|)
      && (length > 0 ==> start + length <= |buffer|)
    case Single(start, length, _) => length > 0 && start + length <= |buffer|
    case Whole(start, length, _, _) => length > 0 && start + length <= |buffer|
  }

  /** A ring is visited before its points are read, with what its count gives in 32 bits. */
  ghost predicate Sound(buffer: Bytes, v: Visit) {
    if v.Ring? then
      && 4 <= v.start <= |buffer| && v.numPoints == Signed(buffer[v.start - 4..v.start])
      && v.length == RingLength(v.numPoints)
    else Inside(buffer, v)
  }

  /** The ring claims more points than the bytes after its count hold. */
  predicate Overclaims(buffer: Bytes, v: Visit) {
    v.Ring? && v.numPoints > 0 && v.numPoints * POINT_SIZE > |buffer| - v.start
  }

  /** A count so far below zero that its length comes out positive again, and too long. */
  predicate WrapsBeyond(buffer: Bytes, v: Visit) {
    v.Ring? && v.numPoints < 0 && RingLength(v.numPoints) > |buffer| - v.start
  }

  /** `n` points from `start` on are too many: point by point, or by their 32-bit length. */
  predicate TooMany(buffer: Bytes, start: nat, n: int, each: bool) {
    if each then n > 0 && n * POINT_SIZE > |buffer| - start
    else RingLength(n) < 0 || RingLength(n) > |buffer| - start
  }

  ghost predicate AllSound(buffer: Bytes, visits: seq<Visit>) {
    forall i | 0 <= i < |visits| :: Sound(buffer, visits[i])
  }

  predicate Fails(buffer: Bytes, v: Visit, each: bool) {
    v.Ring? && TooMany(buffer, v.start, v.numPoints, each)
  }

  ghost predicate NoneFails(buffer: Bytes, visits: seq<Visit>, each: bool) {
    forall i | 0 <= i < |visits| :: !Fails(buffer, visits[i], each)
  }

  ghost predicate OnlyPoints(visits: seq<Visit>) {
    forall i | 0 <= i < |visits| :: visits[i].EachPoint?
  }

  /** The limit was hit by the points of the ring that starts at `start`. */
  predicate EndedBy(r: Reading, start: nat) {
    r.BeyondLimit? && r.ring == Some(start)
  }

  /** The count before `start` announces too many points. */
  ghost predicate RingTooLong(buffer: Bytes, start: nat, each: bool) {
    4 <= start <= |buffer| && TooMany(buffer, start, Signed(buffer[start - 4..start]), each)
  }

  /** A ring with too many points is the last thing visited, but for those of its points that are there. */
  ghost predicate Tidy(buffer: Bytes, r: Reading, each: bool) {
    && AllSound(buffer, r.visits)
    && (forall i | 0 <= i < |r.visits| && Fails(buffer, r.visits[i], each) ::
          EndedBy(r, r.visits[i].start) && OnlyPoints(r.visits[i + 1..]))
    && (r.BeyondLimit? && r.ring.Some? ==> RingTooLong(buffer, r.ring.value, each))
  }

  lemma TidyDone(buffer: Bytes, r: Reading, each: bool)
    requires Tidy(buffer, r, each) && !r.BeyondLimit?
    ensures NoneFails(buffer, r.visits, each)
  {
  }

  lemma TidyAfter(buffer: Bytes, seen: seq<Visit>, r: Reading, each: bool)
    requires AllSound(buffer, seen) && NoneFails(buffer, seen, each) && Tidy(buffer, r, each)
    ensures Tidy(buffer, After(seen, r), each)
  {
    var all := seen + r.visits;
    forall i | 0 <= i < |all|
      ensures Sound(buffer, all[i])
      ensures Fails(buffer, all[i], each) ==> i >= |seen| && Fails(buffer, r.visits[i - |seen|], each)
    {
      assert all[i] == if i < |seen| then seen[i] else r.visits[i - |seen|];
    }
    forall i | 0 <= i < |all| && Fails(buffer, all[i], each)
      ensures EndedBy(r, all[i].start) && OnlyPoints(all[i + 1..])
    {
      assert all[i] == r.visits[i - |seen|];
      assert all[i + 1..] == r.visits[i - |seen| + 1..];
    }
  }

  /** Points that were read fit between the two positions; points that do not fit end the walk. */
  lemma {:induction false} PointsTidy(buffer: Bytes, position: nat, n: int, each: bool)
    requires position <= |buffer|
    ensures var r := ReadPoints(buffer, position, n, each);
            && AllSound(buffer, r.visits) && OnlyPoints(r.visits) && !r.UnexpectedType?
            && (r.BeyondLimit? ==> r.ring == None)
            && (r.BeyondLimit? <==> TooMany(buffer, position, n, true))
    decreases |buffer| - position
  {
    if n > 0 && position + POINT_SIZE <= |buffer| {
      PointsTidy(buffer, position + POINT_SIZE, n - 1, each);
    }
  }

  /** The points of a ring hit the limit exactly when there are too many of them. */
  lemma RingPointsTidy(buffer: Bytes, position: nat, n: int, each: bool)
    requires position <= |buffer|
    ensures var r := ReadRingPoints(buffer, position, n, each);
            && AllSound(buffer, r.visits) && OnlyPoints(r.visits)
            && (if TooMany(buffer, position, n, each) then EndedBy(r, position) else r.Done?)
  {
    if each {
      PointsTidy(buffer, position, n, true);
    }
  }

  lemma RingTidy(buffer: Bytes, position: nat, geometry: nat, total: int, each: bool)
    requires position <= |buffer|
    ensures Tidy(buffer, ReadRing(buffer, position, geometry, total, each), each)
  {
    if position + 4 <= |buffer| {
      var n := Signed(buffer[position..position + 4]);
      RingPointsTidy(buffer, position + 4, n, each);
      var inner := ReadRingPoints(buffer, position + 4, n, each);
      var v := Ring(geometry, position + 4, RingLength(n), total, n);
      assert ([v] + inner.visits)[1..] == inner.visits;
    }
  }

  lemma {:induction false} RingsTidy(buffer: Bytes, position: nat, geometry: nat, total: int, n: int, each: bool)
    requires position <= |buffer|
    ensures Tidy(buffer, ReadRings(buffer, position, geometry, total, n, each), each)
    decreases if n > 0 then n else 0
  {
    if n > 0 {
      RingTidy(buffer, position, geometry, total, each);
      var ring := ReadRing(buffer, position, geometry, total, each);
      if ring.Done? {
        TidyDone(buffer, ring, each);
        RingsTidy(buffer, ring.position, geometry, total, n - 1, each);
        TidyAfter(buffer, ring.visits, ReadRings(buffer, ring.position, geometry, total, n - 1, each), each);
      }
    }
  }

  lemma {:induction false} PartsTidy(buffer: Bytes, position: nat, n: int, each: bool)
    requires position <= |buffer|
    ensures Tidy(buffer, ReadParts(buffer, position, n, each), each)
    decreases |buffer| - position, 1
  {
    if n > 0 {
      ReadTidy(buffer, position, true, each);
      var part := Read(buffer, position, true, each);
      if part.Done? {
        TidyDone(buffer, part, each);
        PartsTidy(buffer, part.position, n - 1, each);
        TidyAfter(buffer, part.visits, ReadParts(buffer, part.position, n - 1, each), each);
      }
    }
  }

  lemma {:induction false} ContentTidy(buffer: Bytes, position: nat, geometry: nat, kind: int, each: bool)
    requires position <= |buffer|
    ensures Tidy(buffer, ReadContent(buffer, position, geometry, kind, each), each)
    decreases |buffer| - position, 2
  {
    if position + 4 <= |buffer| && kind != POINT {
      var n := Signed(buffer[position..position + 4]);
      if kind == LINE_STRING {
        PointsTidy(buffer, position + 4, n, each);
      } else if kind == POLYGON {
        RingsTidy(buffer, position + 4, geometry, n, n, each);
      } else if IsCollection(kind) {
        PartsTidy(buffer, position + 4, n, each);
      }
    }
  }

  lemma CloseTidy(buffer: Bytes, r: Reading, start: nat, kind: int, numRings: int, nested: bool, each: bool)
    requires Tidy(buffer, r, each) && (r.Done? ==> start < r.position <= |buffer|)
    ensures Tidy(buffer, Close(r, start, kind, numRings, nested), each)
  {
    if r.Done? {
      TidyDone(buffer, r, each);
    }
  }

  lemma {:induction false} ReadTidy(buffer: Bytes, position: nat, nested: bool, each: bool)
    requires position <= |buffer|
    ensures Tidy(buffer, Read(buffer, position, nested, each), each)
    decreases |buffer| - position, 0
  {
    if position + 5 <= |buffer| && position + HeaderSize(buffer, position) <= |buffer| {
      var kind := ClearFlag(Unsigned(buffer[position + 1..position + 5]));
      var content := position + HeaderSize(buffer, position);
      ContentTidy(buffer, content, position, kind, each);
      CloseTidy(buffer, ReadContent(buffer, content, position, kind, each), position, kind,
                RingCount(buffer, content, kind), nested, each);
    }
  }

  /**
   Whatever the bytes are, and also when the walk fails, every point, single geometry and whole
   geometry that was visited is inside the buffer.
   */
  lemma ReadInside(buffer: Bytes, position: nat, nested: bool, each: bool)
    requires position <= |buffer|
    ensures forall v | v in Read(buffer, position, nested, each).visits && !v.Ring? :: Inside(buffer, v)
  {
    ReadTidy(buffer, position, nested, each);
  }

  /**
   A ring ends the walk exactly when its points are too many: more than the bytes left when each
   is visited; otherwise when their 32-bit length is negative or more than the bytes left.  After
   such a ring nothing is visited but points of it.
   */
  lemma RingEndsWalkExactly(buffer: Bytes, position: nat, nested: bool, each: bool, i: nat)
    requires position <= |buffer| && i < |Read(buffer, position, nested, each).visits|
    ensures var r := Read(buffer, position, nested, each);
            var v := r.visits[i];
            v.Ring? ==>
              && (EndedBy(r, v.start) <==> TooMany(buffer, v.start, v.numPoints, each))
              && (EndedBy(r, v.start) ==> OnlyPoints(r.visits[i + 1..]))
  {
    ReadTidy(buffer, position, nested, each);
    var r := Read(buffer, position, nested, each);
    assert Sound(buffer, r.visits[i]);
  }

  /**
   A ring that claims more points than there are ends the walk if and only if points are visited,
   or its 32-bit length is negative or still more than the bytes left.
   */
  lemma OverclaimEndsWalkExactly(buffer: Bytes, position: nat, nested: bool, each: bool, i: nat)
    requires position <= |buffer| && i < |Read(buffer, position, nested, each).visits|
    ensures var r := Read(buffer, position, nested, each);
            var v := r.visits[i];
            Overclaims(buffer, v) ==>
              (EndedBy(r, v.start) <==> each || v.length < 0 || v.length > |buffer| - v.start)
  {
    RingEndsWalkExactly(buffer, position, nested, each, i);
    ReadTidy(buffer, position, nested, each);
    assert Sound(buffer, Read(buffer, position, nested, each).visits[i]);
  }

  lemma RingInsideExactly(buffer: Bytes, v: Visit)
    requires v.Ring? && Sound(buffer, v) && IsCount(|buffer|)
    ensures Inside(buffer, v) <==> !Overclaims(buffer, v) && !WrapsBeyond(buffer, v)
  {
    if v.numPoints > 0 && v.numPoints * POINT_SIZE <= |buffer| - v.start {
      WrapSmall(v.numPoints * POINT_SIZE);
    }
  }

  /**
   Everything that is visited is inside the buffer, if and only if no ring that was reached
   claims more points than the bytes after its count hold, or has a count so negative that its
   32-bit length wraps round to one that is too long.
   */
  lemma ReadInsideExactly(buffer: Bytes, position: nat, nested: bool, each: bool)
    requires position <= |buffer| && IsCount(|buffer|)
    ensures var visits := Read(buffer, position, nested, each).visits;
            (forall v | v in visits :: Inside(buffer, v)) <==>
            (forall v | v in visits :: !Overclaims(buffer, v) && !WrapsBeyond(buffer, v))
  {
    ReadTidy(buffer, position, nested, each);
    forall v | v in Read(buffer, position, nested, each).visits && v.Ring? {
      RingInsideExactly(buffer, v);
    }
  }

  // ----- Rings that are shown and are not there -----

  /** A polygon of one ring: the ring's count, and the bytes after it. */
  function OneRing(count: Bytes, rest: Bytes): Bytes
    requires |count| == 4
  {
    Header(POLYGON) + Num(1) + count + rest
  }

  /** The walk over it: the ring is visited, and then its points are read. */
  lemma ReadOneRing(count: Bytes, rest: Bytes, each: bool, n: int, points: Reading, r: Reading)
    requires |count| == 4 && n == Signed(count)
    requires points == ReadRingPoints(OneRing(count, rest), 13, n, each)
    requires r == Read(OneRing(count, rest), 0, false, each)
    ensures r == Close(After([Ring(0, 13, RingLength(n), 1, n)], points), 0, POLYGON, 1, false)
  {
    var buffer := OneRing(count, rest);
    NumRoundTrip(POLYGON);
    NumRoundTrip(1);
    assert buffer[1..5] == Num(POLYGON) && buffer[5..9] == Num(1) && buffer[9..13] == count;
    var ring := ReadRing(buffer, 9, 0, 1, each);
    assert ring.visits + [] == ring.visits;
    assert ReadRings(buffer, 9, 0, 1, 1, each) == ring;
  }

  /** One ring of one point, and no byte of it: the ring is visited before the walk fails. */
  lemma OverrunRingIsShown(each: bool)
    ensures Read(OneRing([1, 0, 0, 0], []), 0, false, each) == BeyondLimit(Some(13), [Ring(0, 13, 16, 1, 1)])
  {
    var buffer := OneRing([1, 0, 0, 0], []);
    ReadOneRing([1, 0, 0, 0], [], each, 1, ReadRingPoints(buffer, 13, 1, each), Read(buffer, 0, false, each));
  }

  const TOO_MANY := 0x1000_0001
  const FAR_BELOW_ZERO := -0x7fff_ffff

  lemma WitnessCounts()
    ensures Signed([1, 0, 0, 0x10]) == TOO_MANY && RingLength(TOO_MANY) == 16
    ensures Signed([1, 0, 0, 0x80]) == FAR_BELOW_ZERO && RingLength(FAR_BELOW_ZERO) == 16
  {
  }

  /** Of very many points only the one that is there is read. */
  lemma ReadOnePoint(buffer: Bytes, position: nat)
    requires position + POINT_SIZE == |buffer|
    ensures ReadRingPoints(buffer, position, TOO_MANY, true) == BeyondLimit(Some(position), [EachPoint(position)])
  {
    assert ReadPoints(buffer, position + POINT_SIZE, TOO_MANY - 1, true) == BeyondLimit(None, []);
  }

  /**
   The count 0x10000001 has the 32-bit length 16.  With sixteen bytes behind it the walk fails
   after the first point when points are visited, and otherwise succeeds past the ring.
   */
  lemma OverclaimIsPassed(point: Bytes)
    requires |point| == POINT_SIZE
    ensures var buffer, ring := OneRing([1, 0, 0, 0x10], point), Ring(0, 13, 16, 1, TOO_MANY);
            && Overclaims(buffer, ring)
            && Read(buffer, 0, false, true) == BeyondLimit(Some(13), [ring, EachPoint(13)])
            && Read(buffer, 0, false, false) == Done(29, [ring, Whole(0, 29, POLYGON, 1)])
  {
    var count := [1, 0, 0, 0x10];
    var buffer := OneRing(count, point);
    WitnessCounts();
    ReadOnePoint(buffer, 13);
    ReadOneRing(count, point, true, TOO_MANY, BeyondLimit(Some(13), [EachPoint(13)]), Read(buffer, 0, false, true));
    ReadOneRing(count, point, false, TOO_MANY, Done(29, []), Read(buffer, 0, false, false));
  }

  /**
   The count -2147483647 has the 32-bit length 16, with no byte behind it.  The walk succeeds
   with that ring visited when points are visited, and otherwise fails at the ring.
   */
  lemma WrappedRingIsShown()
    ensures var buffer, ring := OneRing([1, 0, 0, 0x80], []), Ring(0, 13, 16, 1, FAR_BELOW_ZERO);
            && WrapsBeyond(buffer, ring)
            && Read(buffer, 0, false, true) == Done(13, [ring, Whole(0, 13, POLYGON, 1)])
            && Read(buffer, 0, false, false) == BeyondLimit(Some(13), [ring])
  {
    var count := [1, 0, 0, 0x80];
    var buffer := OneRing(count, []);
    WitnessCounts();
    ReadOneRing(count, [], true, FAR_BELOW_ZERO, Done(13, []), Read(buffer, 0, false, true));
    ReadOneRing(count, [], false, FAR_BELOW_ZERO, BeyondLimit(Some(13), []), Read(buffer, 0, false, false));
  }

  // ----- What is seen -----

  /** The order and the type of a geometry. */
  const HEAD := 5

  /** The bytes a visit points at; a ring also points at the head of its polygon. */
  datatype Sight =
    | PointSight(bytes: Bytes)
    | RingSight(head: Bytes, points: Bytes, numRings: int, numPoints: int)
    | SingleSight(kind: int, bytes: Bytes)
    | WholeSight(kind: int, bytes: Bytes, numRings: int)

  function Slice(buffer: Bytes, start: nat, length: int): Bytes {
    if 0 <= length <= |buffer| - start then buffer[start..start + length] else []
  }

  function Look(buffer: Bytes, v: Visit): Sight {
    match v
    case EachPoint(start) => PointSight(Slice(buffer, start, POINT_SIZE))
    case Ring(geometry, start, length, numRings, n) =>
      RingSight(Slice(buffer, geometry, HEAD), Slice(buffer, start, length), numRings, n)
    case Single(start, length, kind) => SingleSight(kind, Slice(buffer, start, length))
    case Whole(start, length, kind, numRings) => WholeSight(kind, Slice(buffer, start, length), numRings)
  }

  function Seen(buffer: Bytes, visits: seq<Visit>): (s: seq<Sight>)
    ensures |s| == |visits| && forall i | 0 <= i < |s| :: s[i] == Look(buffer, visits[i])
  {
    seq(|visits|, i requires 0 <= i < |visits| => Look(buffer, visits[i]))
  }

  lemma SeenJoined(buffer: Bytes, a: seq<Visit>, b: seq<Visit>)
    ensures Seen(buffer, a + b) == Seen(buffer, a) + Seen(buffer, b)
  {
  }

  // ----- What there is to see in a geometry -----

  /** Every point, when points are visited. */
  function PointSights(points: seq<Bytes>, each: bool): (s: seq<Sight>)
    ensures each ==> |s| == |points| && forall i | 0 <= i < |s| :: s[i] == PointSight(points[i])
    ensures !each ==> s == []
  {
    if each then seq(|points|, i requires 0 <= i < |points| => PointSight(points[i])) else []
  }

  function RingSights(rings: seq<seq<Bytes>>, total: int, head: Bytes, each: bool): seq<Sight> {
    if rings == [] then []
    else
      [RingSight(head, Concat(rings[0]), total, |rings[0]|)]
      + PointSights(rings[0], each) + RingSights(rings[1..], total, head, each)
  }

  function ContentSights(g: Geometry, head: Bytes, each: bool): seq<Sight>
    requires Fits(g)
    decreases g, 0
  {
    match g
    case Point(c) => PointSights([c], each)
    case LineString(points) => PointSights(points, each)
    case Polygon(rings) => RingSights(rings, |rings|, head, each)
    case Multi(_, parts) => PartSights(parts, each)
  }

  /** The last sight of a geometry. */
  function ClosingSights(kind: int, numRings: int, own: Bytes, nested: bool): seq<Sight> {
    if !nested then [WholeSight(kind, own, numRings)]
    else if !IsCollection(kind) then [SingleSight(kind, own)]
    else []
  }

  function RingsOf(g: Geometry): nat {
    if g.Polygon? then |g.rings| else 0
  }

  /** A geometry whose bytes are `own`. */
  function Sights(g: Geometry, own: Bytes, nested: bool, each: bool): seq<Sight>
    requires Fits(g) && |own| >= HEAD
    decreases g, 1
  {
    ContentSights(g, own[..HEAD], each) + ClosingSights(KindOf(g), RingsOf(g), own, nested)
  }

  function PartSights(parts: seq<Geometry>, each: bool): seq<Sight>
    requires forall p | p in parts :: Fits(p)
    decreases parts
  {
    if parts == [] then []
    else Sights(parts[0], Encode(parts[0]), true, each) + PartSights(parts[1..], each)
  }

  // ----- The walk over an encoded geometry -----

  predicate Holds(buffer: Bytes, position: nat, part: Bytes) {
    position + |part| <= |buffer| && forall k | 0 <= k < |part| :: buffer[position + k] == part[k]
  }

  lemma HoldsSlice(buffer: Bytes, position: nat, part: Bytes)
    requires Holds(buffer, position, part)
    ensures buffer[position..position + |part|] == part
  {
  }

  lemma HoldsJoined(buffer: Bytes, position: nat, all: Bytes, a: Bytes, b: Bytes)
    requires Holds(buffer, position, all) && all == a + b
    ensures Holds(buffer, position, a) && Holds(buffer, position + |a|, b)
  {
    assert forall k | 0 <= k < |a| :: all[k] == a[k];
    assert forall k | 0 <= k < |b| :: all[|a| + k] == b[k];
  }

  lemma HoldsNum(buffer: Bytes, position: nat, all: Bytes, n: int, rest: Bytes)
    requires IsCount(n) && Holds(buffer, position, all) && all == Num(n) + rest
    ensures position + 4 <= |buffer| && Signed(buffer[position..position + 4]) == n
    ensures Holds(buffer, position + 4, rest)
  {
    HoldsJoined(buffer, position, all, Num(n), rest);
    HoldsSlice(buffer, position, Num(n));
    NumRoundTrip(n);
  }

  /** A reading that ends at `end` and shows `sights`. */
  ghost predicate Shows(buffer: Bytes, r: Reading, end: nat, sights: seq<Sight>) {
    r.Done? && r.position == end && Seen(buffer, r.visits) == sights
  }

  lemma ShowsAfter(buffer: Bytes, seen: seq<Visit>, r: Reading, end: nat, sights: seq<Sight>)
    requires Shows(buffer, r, end, sights)
    ensures Shows(buffer, After(seen, r), end, Seen(buffer, seen) + sights)
  {
    SeenJoined(buffer, seen, r.visits);
  }

  lemma PointSightsCons(points: seq<Bytes>, each: bool)
    requires points != []
    ensures PointSights(points, each) == PointSights([points[0]], each) + PointSights(points[1..], each)
  {
  }

  lemma PointLook(buffer: Bytes, position: nat, point: Bytes, each: bool)
    requires |point| == POINT_SIZE && Holds(buffer, position, point)
    ensures Seen(buffer, PointVisits(position, each)) == PointSights([point], each)
  {
    HoldsSlice(buffer, position, point);
  }

  lemma {:induction false} PointsShown(buffer: Bytes, position: nat, points: seq<Bytes>, bytes: Bytes, end: nat,
                                       each: bool, r: Reading)
    requires (forall p | p in points :: |p| == POINT_SIZE) && bytes == Concat(points)
    requires Holds(buffer, position, bytes) && end == position + |bytes|
    requires r == ReadPoints(buffer, position, |points|, each)
    ensures Shows(buffer, r, end, PointSights(points, each))
    decreases points
  {
    if points != [] {
      var first, rest := points[0], points[1..];
      assert first in points;
      HoldsJoined(buffer, position, bytes, first, Concat(rest));
      PointLook(buffer, position, first, each);
      var after := ReadPoints(buffer, position + POINT_SIZE, |rest|, each);
      PointsShown(buffer, position + POINT_SIZE, rest, Concat(rest), end, each, after);
      ShowsAfter(buffer, PointVisits(position, each), after, end, PointSights(rest, each));
      PointSightsCons(points, each);
    }
  }

  lemma EncodeRingsCons(rings: seq<seq<Bytes>>)
    requires rings != [] && AllFit(rings)
    ensures EncodeRings(rings) == EncodePoints(rings[0]) + EncodeRings(rings[1..])
  {
  }

  lemma HoldsRings(buffer: Bytes, position: nat, rings: seq<seq<Bytes>>, bytes: Bytes, next: nat,
                   first: Bytes, rest: Bytes)
    requires rings != [] && AllFit(rings) && bytes == EncodeRings(rings) && Holds(buffer, position, bytes)
    requires first == EncodePoints(rings[0]) && rest == EncodeRings(rings[1..]) && next == position + |first|
    ensures Holds(buffer, position, first) && Holds(buffer, next, rest) && next + |rest| == position + |bytes|
  {
    assert bytes == first + rest by {
      EncodeRingsCons(rings);
    }
    HoldsJoined(buffer, position, bytes, first, rest);
  }

  lemma WrapSmall(n: int)
    requires IsCount(n)
    ensures Wrap(n) == n
  {
  }

  lemma SliceHolds(buffer: Bytes, start: nat, part: Bytes)
    requires Holds(buffer, start, part)
    ensures Slice(buffer, start, |part|) == part
  {
    HoldsSlice(buffer, start, part);
  }

  /** In a buffer that holds it, the length of a ring is that of its points. */
  lemma RingLengthFits(ring: seq<Bytes>, points: Bytes)
    requires FitPoints(ring) && points == Concat(ring) && IsCount(|points|)
    ensures RingLength(|ring|) == |points|
  {
    ConcatSize(ring);
    WrapSmall(|points|);
  }

  lemma RingLook(buffer: Bytes, start: nat, geometry: nat, total: int, n: int, points: Bytes, head: Bytes)
    requires Holds(buffer, start, points) && Slice(buffer, geometry, HEAD) == head
    ensures Look(buffer, Ring(geometry, start, |points|, total, n)) == RingSight(head, points, total, n)
  {
    SliceHolds(buffer, start, points);
  }

  /** The points of an encoded ring, visited or skipped. */
  lemma RingPointsShown(buffer: Bytes, position: nat, ring: seq<Bytes>, each: bool)
    requires FitPoints(ring) && IsCount(|buffer|) && Holds(buffer, position, Concat(ring))
    ensures Shows(buffer, ReadRingPoints(buffer, position, |ring|, each), position + |Concat(ring)|,
                  PointSights(ring, each))
  {
    var bytes := Concat(ring);
    PointsShown(buffer, position, ring, bytes, position + |bytes|, true, ReadPoints(buffer, position, |ring|, true));
    RingLengthFits(ring, bytes);
  }

  lemma RingShown(buffer: Bytes, position: nat, geometry: nat, total: int, ring: seq<Bytes>, head: Bytes,
                  r: Reading, each: bool)
    requires Slice(buffer, geometry, HEAD) == head
    requires FitPoints(ring) && IsCount(|buffer|) && Holds(buffer, position, EncodePoints(ring))
    requires r == ReadRing(buffer, position, geometry, total, each)
    ensures Shows(buffer, r, position + |EncodePoints(ring)|,
                  [RingSight(head, Concat(ring), total, |ring|)] + PointSights(ring, each))
  {
    HoldsNum(buffer, position, EncodePoints(ring), |ring|, Concat(ring));
    RingPointsShown(buffer, position + 4, ring, each);
    RingLengthFits(ring, Concat(ring));
    RingLook(buffer, position + 4, geometry, total, |ring|, Concat(ring), head);
    var v := Ring(geometry, position + 4, RingLength(|ring|), total, |ring|);
    var inner := ReadRingPoints(buffer, position + 4, |ring|, each);
    ShowsAfter(buffer, [v], inner, position + |EncodePoints(ring)|, PointSights(ring, each));
    assert Seen(buffer, [v]) == [Look(buffer, v)];
  }

  lemma RingsCons(buffer: Bytes, position: nat, geometry: nat, total: int, n: nat, m: nat, next: nat, ring: Reading,
                  after: Reading, r: Reading, end: nat, first: seq<Sight>, rest: seq<Sight>, each: bool)
    requires position <= |buffer| && next <= |buffer| && n == m + 1
    requires ring == ReadRing(buffer, position, geometry, total, each) && Shows(buffer, ring, next, first)
    requires after == ReadRings(buffer, next, geometry, total, m, each) && Shows(buffer, after, end, rest)
    requires r == ReadRings(buffer, position, geometry, total, n, each)
    ensures Shows(buffer, r, end, first + rest)
  {
    ShowsAfter(buffer, ring.visits, after, end, rest);
  }

  lemma RingsConsShown(buffer: Bytes, position: nat, geometry: nat, total: int, rings: seq<seq<Bytes>>,
                       rest: seq<seq<Bytes>>, next: nat, after: Reading, end: nat, head: Bytes, r: Reading, each: bool)
    requires Slice(buffer, geometry, HEAD) == head
    requires rings != [] && rest == rings[1..] && FitPoints(rings[0]) && IsCount(|buffer|)
    requires Holds(buffer, position, EncodePoints(rings[0])) && next == position + |EncodePoints(rings[0])|
    requires after == ReadRings(buffer, next, geometry, total, |rest|, each)
    requires Shows(buffer, after, end, RingSights(rest, total, head, each))
    requires r == ReadRings(buffer, position, geometry, total, |rings|, each)
    ensures Shows(buffer, r, end, RingSights(rings, total, head, each))
  {
    var ring := ReadRing(buffer, position, geometry, total, each);
    RingShown(buffer, position, geometry, total, rings[0], head, ring, each);
    RingsCons(buffer, position, geometry, total, |rings|, |rest|, next, ring, after, r, end,
              [RingSight(head, Concat(rings[0]), total, |rings[0]|)] + PointSights(rings[0], each),
              RingSights(rest, total, head, each), each);
  }

  lemma {:induction false} RingsShown(buffer: Bytes, position: nat, geometry: nat, total: int,
                                      rings: seq<seq<Bytes>>, bytes: Bytes, end: nat, head: Bytes,
                                      r: Reading, each: bool)
    requires Slice(buffer, geometry, HEAD) == head
    requires AllFit(rings) && IsCount(|buffer|) && bytes == EncodeRings(rings)
    requires Holds(buffer, position, bytes) && end == position + |bytes|
    requires r == ReadRings(buffer, position, geometry, total, |rings|, each)
    ensures Shows(buffer, r, end, RingSights(rings, total, head, each))
    decreases rings
  {
    if rings == [] {
      NoRingsShown(buffer, position, geometry, total, head, each);
    } else {
      var rest, next := rings[1..], position + |EncodePoints(rings[0])|;
      var restBytes := EncodeRings(rest);
      HoldsRings(buffer, position, rings, bytes, next, EncodePoints(rings[0]), restBytes);
      var after := ReadRings(buffer, next, geometry, total, |rest|, each);
      RingsShown(buffer, next, geometry, total, rest, restBytes, end, head, after, each);
      RingsConsShown(buffer, position, geometry, total, rings, rest, next, after, end, head, r, each);
    }
  }

  lemma NoRingsShown(buffer: Bytes, position: nat, geometry: nat, total: int, head: Bytes, each: bool)
    requires position <= |buffer|
    ensures Shows(buffer, ReadRings(buffer, position, geometry, total, 0, each), position,
                  RingSights([], total, head, each))
  {
  }

  lemma PartsCons(buffer: Bytes, position: nat, n: nat, m: nat, next: nat, part: Reading, after: Reading, r: Reading,
                  end: nat, first: seq<Sight>, rest: seq<Sight>, each: bool)
    requires position <= |buffer| && next <= |buffer| && n == m + 1
    requires part == Read(buffer, position, true, each) && Shows(buffer, part, next, first)
    requires after == ReadParts(buffer, next, m, each) && Shows(buffer, after, end, rest)
    requires r == ReadParts(buffer, position, n, each)
    ensures Shows(buffer, r, end, first + rest)
  {
    ShowsAfter(buffer, part.visits, after, end, rest);
  }

  lemma EncodeAllCons(parts: seq<Geometry>)
    requires parts != [] && forall p | p in parts :: Fits(p)
    ensures EncodeAll(parts) == Encode(parts[0]) + EncodeAll(parts[1..])
  {
  }

  lemma HoldsParts(buffer: Bytes, position: nat, parts: seq<Geometry>, bytes: Bytes, next: nat,
                   first: Bytes, rest: Bytes)
    requires parts != [] && (forall p | p in parts :: Fits(p))
    requires bytes == EncodeAll(parts) && Holds(buffer, position, bytes)
    requires first == Encode(parts[0]) && rest == EncodeAll(parts[1..]) && next == position + |first|
    ensures Holds(buffer, position, first) && Holds(buffer, next, rest) && next + |rest| == position + |bytes|
  {
    assert bytes == first + rest by {
      EncodeAllCons(parts);
    }
    HoldsJoined(buffer, position, bytes, first, rest);
  }

  lemma {:induction false} PartsShown(buffer: Bytes, position: nat, parts: seq<Geometry>, r: Reading, each: bool)
    requires (forall p | p in parts :: Fits(p)) && IsCount(|buffer|) && Holds(buffer, position, EncodeAll(parts))
    requires r == ReadParts(buffer, position, |parts|, each)
    ensures Shows(buffer, r, position + |EncodeAll(parts)|, PartSights(parts, each))
    decreases parts
  {
    if parts != [] {
      var first, rest := Encode(parts[0]), EncodeAll(parts[1..]);
      var next := position + |first|;
      HoldsParts(buffer, position, parts, EncodeAll(parts), next, first, rest);
      var part := Read(buffer, position, true, each);
      ReadShown(buffer, position, parts[0], true, part, each);
      var after := ReadParts(buffer, next, |parts[1..]|, each);
      PartsShown(buffer, next, parts[1..], after, each);
      PartsCons(buffer, position, |parts|, |parts[1..]|, next, part, after, r, position + |EncodeAll(parts)|,
                Sights(parts[0], first, true, each), PartSights(parts[1..], each), each);
    }
  }

  lemma {:induction false} ContentShown(buffer: Bytes, position: nat, geometry: nat, g: Geometry,
                                        bytes: Bytes, end: nat, head: Bytes, r: Reading, each: bool)
    requires Slice(buffer, geometry, HEAD) == head
    requires Fits(g) && IsCount(|buffer|) && bytes == Content(g)
    requires Holds(buffer, position, bytes) && end == position + |bytes|
    requires r == ReadContent(buffer, position, geometry, KindOf(g), each)
    ensures Shows(buffer, r, end, ContentSights(g, head, each))
    ensures RingCount(buffer, position, KindOf(g)) == RingsOf(g)
    decreases g, 0
  {
    match g
    case Point(c) =>
      HoldsSlice(buffer, position, c);
      assert Seen(buffer, PointVisits(position, each)) == PointSights([c], each);
    case LineString(points) =>
      HoldsNum(buffer, position, bytes, |points|, Concat(points));
      PointsShown(buffer, position + 4, points, Concat(points), end, each, r);
    case Polygon(rings) =>
      HoldsNum(buffer, position, bytes, |rings|, EncodeRings(rings));
      RingsShown(buffer, position + 4, geometry, |rings|, rings, EncodeRings(rings), end, head, r, each);
    case Multi(kind, parts) =>
      HoldsNum(buffer, position, bytes, |parts|, EncodeAll(parts));
      PartsShown(buffer, position + 4, parts, r, each);
  }

  lemma CloseShown(buffer: Bytes, r: Reading, start: nat, end: nat, sights: seq<Sight>,
                   kind: int, numRings: int, nested: bool)
    requires Shows(buffer, r, end, sights) && start <= end <= |buffer|
    ensures Shows(buffer, Close(r, start, kind, numRings, nested), end,
                  sights + ClosingSights(kind, numRings, buffer[start..end], nested))
  {
    var closing := Closing(start, end, kind, numRings, nested);
    SeenJoined(buffer, r.visits, closing);
    assert Seen(buffer, closing) == ClosingSights(kind, numRings, buffer[start..end], nested);
  }

  /** A header with the flag or without it, and then the content. */
  lemma ReadAtHeader(buffer: Bytes, position: nat, kind: int, size: nat, nested: bool,
                     start: nat, content: Reading, end: nat, sights: seq<Sight>, numRings: int, r: Reading, each: bool)
    requires position + 5 <= |buffer| && position + size <= |buffer|
    requires ClearFlag(Unsigned(buffer[position + 1..position + 5])) == kind && HeaderSize(buffer, position) == size
    requires start == position + size && content == ReadContent(buffer, start, position, kind, each)
    requires numRings == RingCount(buffer, start, kind)
    requires Shows(buffer, content, end, sights)
    requires r == Read(buffer, position, nested, each)
    ensures position <= end <= |buffer|
    ensures Shows(buffer, r, end, sights + ClosingSights(kind, numRings, buffer[position..end], nested))
  {
    CloseShown(buffer, content, position, end, sights, kind, numRings, nested);
  }

  lemma HeaderAt(buffer: Bytes, position: nat, all: Bytes, kind: int, rest: Bytes)
    requires IsU32(kind) && !HasFlag(kind) && Holds(buffer, position, all) && all == Header(kind) + rest
    ensures Holds(buffer, position + 5, rest)
    ensures HeaderSize(buffer, position) == 5
    ensures ClearFlag(Unsigned(buffer[position + 1..position + 5])) == kind
  {
    HoldsJoined(buffer, position, all, Header(kind), rest);
    HoldsJoined(buffer, position, Header(kind), [LITTLE_ENDIAN], Num(kind));
    HoldsSlice(buffer, position + 1, Num(kind));
    NumRoundTrip(kind);
  }

  lemma {:induction false} AnyHeaderShown(buffer: Bytes, position: nat, size: nat, g: Geometry, nested: bool,
                                          start: nat, end: nat, own: Bytes, r: Reading, each: bool)
    requires Fits(g) && IsCount(|buffer|) && position + 5 <= |buffer| && Holds(buffer, start, Content(g))
    requires ClearFlag(Unsigned(buffer[position + 1..position + 5])) == KindOf(g)
    requires HeaderSize(buffer, position) == size
    requires start == position + size && end == start + |Content(g)| && own == buffer[position..end]
    requires r == Read(buffer, position, nested, each)
    ensures Shows(buffer, r, end, Sights(g, own, nested, each))
    decreases g, 1
  {
    var content := ReadContent(buffer, start, position, KindOf(g), each);
    var head := own[..HEAD];
    assert Slice(buffer, position, HEAD) == head;
    ContentShown(buffer, start, position, g, Content(g), end, head, content, each);
    ReadAtHeader(buffer, position, KindOf(g), size, nested, start, content, end, ContentSights(g, head, each),
                 RingsOf(g), r, each);
  }

  lemma {:induction false} ReadShown(buffer: Bytes, position: nat, g: Geometry, nested: bool, r: Reading, each: bool)
    requires Fits(g) && IsCount(|buffer|) && Holds(buffer, position, Encode(g))
    requires r == Read(buffer, position, nested, each)
    ensures Shows(buffer, r, position + |Encode(g)|, Sights(g, Encode(g), nested, each))
    decreases g, 2
  {
    KindIsPlain(g);
    HeaderAt(buffer, position, Encode(g), KindOf(g), Content(g));
    HoldsSlice(buffer, position, Encode(g));
    AnyHeaderShown(buffer, position, 5, g, nested, position + 5, position + |Encode(g)|, Encode(g), r, each);
  }

  /** Walking an encoded geometry shows all of it, in order, and ends where the buffer ends. */
  lemma EncodedShown(g: Geometry, each: bool)
    requires Fits(g) && IsCount(|Encode(g)|)
    ensures Shows(Encode(g), Read(Encode(g), 0, false, each), |Encode(g)|, Sights(g, Encode(g), false, each))
  {
    ReadShown(Encode(g), 0, g, false, Read(Encode(g), 0, false, each), each);
  }

  lemma WholeBufferShown(e: Bytes, size: nat, g: Geometry, r: Reading, each: bool)
    requires Fits(g) && IsCount(|e|) && |e| >= 5 && |e| == size + |Content(g)| && Holds(e, size, Content(g))
    requires HeaderSize(e, 0) == size && ClearFlag(Unsigned(e[1..5])) == KindOf(g)
    requires r == Read(e, 0, false, each)
    ensures Shows(e, r, |e|, Sights(g, e, false, each))
  {
    assert e[0..|e|] == e;
    AnyHeaderShown(e, 0, size, g, false, size, |e|, e, r, each);
  }

  lemma ExtendedParts(kind: int, content: Bytes)
    requires IsU32(kind) && !HasFlag(kind)
    ensures var e := WithSrid(Header(kind) + content);
            && |e| == 9 + |content| && Holds(e, 9, content)
            && HeaderSize(e, 0) == 9 && ClearFlag(Unsigned(e[1..5])) == kind
  {
    var e := WithSrid(Header(kind) + content);
    HeaderParts(kind, content);
    NumRoundTrip(kind);
    NumRoundTrip(SetFlag(kind));
    assert e[1..5] == Num(SetFlag(kind));
    assert e[9..] == content;
  }

  /** The identifier changes nothing that is shown inside the geometry. */
  lemma ExtendedShown(g: Geometry, each: bool)
    requires Fits(g) && IsCount(|Encode(g)| + 4)
    ensures |Encode(g)| >= 5
    ensures var e := WithSrid(Encode(g)); Shows(e, Read(e, 0, false, each), |e|, Sights(g, e, false, each))
  {
    var e := WithSrid(Encode(g));
    KindIsPlain(g);
    ExtendedParts(KindOf(g), Content(g));
    WholeBufferShown(e, 9, g, Read(e, 0, false, each), each);
  }
}
