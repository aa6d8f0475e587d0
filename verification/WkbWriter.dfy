/**
 Writing a geometry into a growing buffer: four bytes are reserved before each list and the
 count is patched in once the list has been written.
 */
module WkbWriter {
  import Text
  import opened Options
  import opened Wkb

  /** What is decided on coordinates: equality of points, and PostGIS. */
  datatype Checks = Checks(
    same: (Bytes, Bytes) -> bool,                            // equal coordinates, as numbers
    antipodal: (Bytes, Bytes) -> bool,                       // an edge over half a meridian or more
    oriented: seq<seq<Bytes>> -> Option<seq<seq<Bytes>>>     // the clockwise polygon, if it is valid
  )

  const LINE_LEAST := 2
  const RING_LEAST := 4

  // ----- What is written -----

  /** Without the points that repeat the last point kept. */
  function Distinct(points: seq<Bytes>, c: Checks): (d: seq<Bytes>)
    ensures |d| <= |points| && (forall p | p in d :: p in points)
  {
    if points == [] then []
    else
      var n := |points| - 1;
      var d := Distinct(points[..n], c);
      if d != [] && c.same(points[n], d[|d| - 1]) then d else d + [points[n]]
  }

  predicate NoRepeats(points: seq<Bytes>, c: Checks) {
    forall i | 0 < i < |points| :: !c.same(points[i], points[i - 1])
  }

  /** No point repeats its neighbour any more. */
  lemma {:induction false} DistinctNoRepeats(points: seq<Bytes>, c: Checks)
    ensures NoRepeats(Distinct(points, c), c)
  {
    if points != [] {
      DistinctNoRepeats(points[..|points| - 1], c);
    }
  }

  /** A list without repeats is written as it is. */
  lemma {:induction false} DistinctKeeps(points: seq<Bytes>, c: Checks)
    requires NoRepeats(points, c)
    ensures Distinct(points, c) == points
  {
    if points != [] {
      var n := |points| - 1;
      DistinctKeeps(points[..n], c);
      assert points == points[..n] + [points[n]];
    }
  }

  lemma {:induction false} DistinctPrefix(points: seq<Bytes>, n: nat, c: Checks)
    requires n <= |points|
    ensures Distinct(points[..n], c) <= Distinct(points, c)
    decreases |points|
  {
    if n == |points| {
      assert points[..n] == points;
    } else {
      var m := |points| - 1;
      DistinctPrefix(points[..m], n, c);
      assert points[..m][..n] == points[..n];
    }
  }

  // ----- Which lists of points are accepted -----

  predicate NoAntipodal(d: seq<Bytes>, c: Checks) {
    forall i | 0 < i < |d| :: !c.antipodal(d[i], d[i - 1])
  }

  /** Only the last point may have occurred before. */
  predicate NoEarlyDuplicate(d: seq<Bytes>) {
    forall i, k | 0 <= i < k < |d| - 1 :: d[i] != d[k]
  }

  /** Nothing wrong in the points so far. */
  predicate SoFar(d: seq<Bytes>, ring: bool, c: Checks) {
    NoAntipodal(d, c) && (ring ==> NoEarlyDuplicate(d))
  }

  /** A line of two points or more, or a closed loop of four or more. */
  predicate GoodList(d: seq<Bytes>, ring: bool, c: Checks) {
    && SoFar(d, ring, c)
    && |d| >= (if ring then RING_LEAST else LINE_LEAST)
    && (ring ==> c.same(d[0], d[|d| - 1]))
  }

  predicate LastRepeats(d: seq<Bytes>) {
    d != [] && d[|d| - 1] in d[..|d| - 1]
  }

  lemma SoFarPrefix(d: seq<Bytes>, e: seq<Bytes>, ring: bool, c: Checks)
    requires d <= e && SoFar(e, ring, c)
    ensures SoFar(d, ring, c)
  {
    assert forall i | 0 <= i < |d| :: d[i] == e[i];
  }

  lemma EarlyDuplicateStep(d: seq<Bytes>, p: Bytes)
    requires NoEarlyDuplicate(d)
    ensures NoEarlyDuplicate(d + [p]) <==> !LastRepeats(d)
  {
    var e := d + [p];
    if LastRepeats(d) {
      var i :| 0 <= i < |d| - 1 && d[i] == d[|d| - 1];
      assert e[i] == e[|d| - 1];
    } else {
      forall i, k | 0 <= i < k < |e| - 1
        ensures e[i] != e[k]
      {
        assert e[i] == d[i] && e[k] == d[k];
        assert k == |d| - 1 ==> d[i] in d[..|d| - 1];
      }
    }
  }

  lemma AntipodalStep(d: seq<Bytes>, p: Bytes, c: Checks)
    requires NoAntipodal(d, c)
    ensures NoAntipodal(d + [p], c) <==> (d != [] ==> !c.antipodal(p, d[|d| - 1]))
  {
    var e := d + [p];
    assert e[|d|] == p;
    assert d != [] ==> e[|d| - 1] == d[|d| - 1];
  }

  /** What one more point must satisfy. */
  lemma SoFarStep(d: seq<Bytes>, p: Bytes, ring: bool, c: Checks)
    requires SoFar(d, ring, c)
    ensures SoFar(d + [p], ring, c) <==> !(ring && LastRepeats(d)) && (d != [] ==> !c.antipodal(p, d[|d| - 1]))
    ensures LastRepeats(d + [p]) <==> p in d
  {
    AntipodalStep(d, p, c);
    if ring {
      EarlyDuplicateStep(d, p);
    }
    assert (d + [p])[..|d|] == d;
  }

  function DistinctRings(rings: seq<seq<Bytes>>, c: Checks): (d: seq<seq<Bytes>>)
    ensures |d| == |rings| && forall i | 0 <= i < |d| :: d[i] == Distinct(rings[i], c)
    ensures AllFit(rings) ==> AllFit(d)
  {
    assert forall i | 0 <= i < |rings| && FitPoints(rings[i]) :: FitPoints(Distinct(rings[i], c));
    seq(|rings|, i requires 0 <= i < |rings| => Distinct(rings[i], c))
  }

  /** The polygon PostGIS gives back, with points of the same size and counts that fit. */
  function Oriented(rings: seq<seq<Bytes>>, c: Checks): (r: Option<seq<seq<Bytes>>>)
    ensures r.Some? ==> Fits(Polygon(r.value))
  {
    var o := c.oriented(rings);
    if o.Some? && Fits(Polygon(o.value)) then o else None
  }

  /** The geometry that is written. */
  function Clean(g: Geometry, c: Checks): (r: Geometry)
    requires Fits(g)
    ensures Fits(r) && KindOf(r) == KindOf(g)
    decreases g
  {
    match g
    case Point(_) => g
    case LineString(points) => LineString(Distinct(points, c))
    case Polygon(rings) =>
      var d := DistinctRings(rings, c);
      Polygon(if Oriented(d, c).Some? then Oriented(d, c).value else d)
    case Multi(kind, parts) => Multi(kind, CleanAll(parts, c))
  }

  function CleanAll(parts: seq<Geometry>, c: Checks): (r: seq<Geometry>)
    requires forall p | p in parts :: Fits(p)
    ensures |r| == |parts| && (forall p | p in r :: Fits(p))
    ensures forall i | 0 <= i < |r| :: r[i] == Clean(parts[i], c)
    decreases parts
  {
    if parts == [] then [] else [Clean(parts[0], c)] + CleanAll(parts[1..], c)
  }

  predicate AllGood(rings: seq<seq<Bytes>>, c: Checks) {
    forall i | 0 <= i < |rings| :: GoodList(rings[i], true, c)
  }

  /** No list is empty or bad, every polygon is valid, and no collection is inside another. */
  predicate Acceptable(g: Geometry, inside: bool, c: Checks)
    decreases g
  {
    match g
    case Point(_) => true
    case LineString(points) => GoodList(Distinct(points, c), false, c)
    case Polygon(rings) =>
      var d := DistinctRings(rings, c);
      rings != [] && AllGood(d, c) && Oriented(d, c).Some?
    case Multi(kind, parts) =>
      && parts != [] && !(inside && kind == GEOMETRY_COLLECTION)
      && AllAcceptable(parts, inside || kind == GEOMETRY_COLLECTION, c)
  }

  predicate AllAcceptable(parts: seq<Geometry>, inside: bool, c: Checks)
    decreases parts
  {
    forall p | p in parts :: Acceptable(p, inside, c)
  }

  lemma AcceptableStep(parts: seq<Geometry>, n: nat, inside: bool, c: Checks)
    requires n < |parts| && AllAcceptable(parts[..n], inside, c) && Acceptable(parts[n], inside, c)
    ensures AllAcceptable(parts[..n + 1], inside, c)
  {
    forall p | p in parts[..n + 1]
      ensures Acceptable(p, inside, c)
    {
      assert p == parts[n] || p in parts[..n];
    }
  }

  // ----- The buffer -----

  lemma PatchedTail(before: Bytes, slot: Bytes, num: Bytes, rest: Bytes)
    requires |slot| == |num| == 4
    ensures var data := before + slot + rest;
            data[..|before|] + num + data[|before| + 4..] == before + (num + rest)
  {
  }

  lemma DistinctSnoc(points: seq<Bytes>, i: nat, c: Checks)
    requires i < |points|
    ensures var d := Distinct(points[..i], c);
            Distinct(points[..i + 1], c) == if d != [] && c.same(points[i], d[|d| - 1]) then d else d + [points[i]]
  {
    assert points[..i + 1][..i] == points[..i];
  }

  /** What is remembered while a list is written; the set only for a loop. */
  datatype Kept = Kept(count: nat, first: Bytes, last: Bytes, repeated: bool, seen: set<Bytes>)

  function Add(k: Kept, p: Bytes, ring: bool): Kept {
    Kept(k.count + 1, if k.count == 0 then p else k.first, p, ring && p in k.seen, if ring then k.seen + {p} else {})
  }

  ghost predicate Tracks(k: Kept, d: seq<Bytes>, ring: bool) {
    && k.count == |d| && (d != [] ==> k.first == d[0] && k.last == d[|d| - 1])
    && (ring ==> k.seen == Text.Elements(d) && (k.repeated <==> LastRepeats(d)))
  }

  lemma TracksAdd(k: Kept, d: seq<Bytes>, p: Bytes, ring: bool)
    requires Tracks(k, d, ring)
    ensures Tracks(Add(k, p, ring), d + [p], ring)
  {
    Text.ElementsConcat(d, [p]);
    assert Text.Elements([p]) == {p};
    assert (d + [p])[..|d|] == d;
    assert p in Text.Elements(d) <==> p in d;
  }

  lemma ConcatStep(before: Bytes, blocks: seq<Bytes>, b: Bytes)
    ensures (before + Concat(blocks)) + b == before + Concat(blocks + [b])
  {
    ConcatSnoc(blocks, b);
  }

  /** A list that has gone wrong stays wrong. */
  lemma NotSoFar(points: seq<Bytes>, n: nat, ring: bool, c: Checks)
    requires n <= |points| && !SoFar(Distinct(points[..n], c), ring, c)
    ensures !SoFar(Distinct(points, c), ring, c)
  {
    DistinctPrefix(points, n, c);
    if SoFar(Distinct(points, c), ring, c) {
      SoFarPrefix(Distinct(points[..n], c), Distinct(points, c), ring, c);
    }
  }

  predicate Skips(k: Kept, p: Bytes, c: Checks) {
    k.count > 0 && c.same(p, k.last)
  }

  predicate Rejects(k: Kept, p: Bytes, ring: bool, c: Checks) {
    (ring && k.repeated) || (k.count > 0 && c.antipodal(p, k.last))
  }

  /** A point is rejected exactly when the points up to it are not a good beginning. */
  lemma RejectsExactly(d: seq<Bytes>, p: Bytes, ring: bool, c: Checks, k: Kept)
    requires SoFar(d, ring, c) && Tracks(k, d, ring)
    ensures Rejects(k, p, ring, c) <==> !SoFar(d + [p], ring, c)
    ensures Tracks(Add(k, p, ring), d + [p], ring)
  {
    SoFarStep(d, p, ring, c);
    TracksAdd(k, d, p, ring);
  }

  lemma SkipsExactly(points: seq<Bytes>, i: nat, ring: bool, c: Checks, d: seq<Bytes>, k: Kept)
    requires i < |points| && d == Distinct(points[..i], c) && Tracks(k, d, ring)
    ensures Distinct(points[..i + 1], c) == if Skips(k, points[i], c) then d else d + [points[i]]
  {
    DistinctSnoc(points, i, c);
  }

  /** One point of the loop: skipped, rejected for good, or kept. */
  lemma ListStep(points: seq<Bytes>, i: nat, ring: bool, c: Checks, d: seq<Bytes>, k: Kept)
    requires i < |points| && d == Distinct(points[..i], c) && SoFar(d, ring, c) && Tracks(k, d, ring)
    ensures Distinct(points[..i + 1], c) == if Skips(k, points[i], c) then d else d + [points[i]]
    ensures !Skips(k, points[i], c) && Rejects(k, points[i], ring, c) ==> !SoFar(Distinct(points, c), ring, c)
    ensures !Rejects(k, points[i], ring, c) ==> SoFar(d + [points[i]], ring, c)
    ensures Tracks(Add(k, points[i], ring), d + [points[i]], ring)
  {
    SkipsExactly(points, i, ring, c, d, k);
    RejectsExactly(d, points[i], ring, c, k);
    if !Skips(k, points[i], c) && Rejects(k, points[i], ring, c) {
      NotSoFar(points, i + 1, ring, c);
    }
  }

  lemma AllGoodStep(rings: seq<seq<Bytes>>, n: nat, c: Checks)
    requires n < |rings| && AllGood(rings[..n], c) && GoodList(rings[n], true, c)
    ensures AllGood(rings[..n + 1], c)
  {
    assert rings[..n + 1] == rings[..n] + [rings[n]];
  }

  lemma NotAllGood(rings: seq<seq<Bytes>>, n: nat, c: Checks)
    requires n < |rings| && !GoodList(rings[n], true, c)
    ensures !AllGood(rings, c)
  {
  }

  lemma RingsStep(before: Bytes, rings: seq<seq<Bytes>>, n: nat)
    requires n < |rings| && AllFit(rings)
    ensures (before + EncodeRings(rings[..n])) + EncodePoints(rings[n]) == before + EncodeRings(rings[..n + 1])
  {
    EncodeRingsSnoc(rings[..n], rings[n]);
    assert rings[..n + 1] == rings[..n] + [rings[n]];
    Text.Regroup(before, EncodeRings(rings[..n]), EncodePoints(rings[n]));
  }

  lemma PartsStep(before: Bytes, parts: seq<Geometry>, n: nat)
    requires n < |parts| && forall p | p in parts :: Fits(p)
    ensures (before + EncodeAll(parts[..n])) + Encode(parts[n]) == before + EncodeAll(parts[..n + 1])
  {
    EncodeAllSnoc(parts[..n], parts[n]);
    assert parts[..n + 1] == parts[..n] + [parts[n]];
    Text.Regroup(before, EncodeAll(parts[..n]), Encode(parts[n]));
  }

  class Buffer {
    var data: Bytes

    constructor (initial: Bytes)
      ensures data == initial
    {
      data := initial;
    }

    method Append(b: Bytes)
      modifies this
      ensures data == old(data) + b
    {
      data := data + b;
    }

    method ReserveNum() returns (position: nat)
      modifies this
      ensures position == |old(data)| && data == old(data) + [0, 0, 0, 0]
    {
      position := |data|;
      data := data + [0, 0, 0, 0];
    }

    /** The slot must have something after it. */
    method PatchNum(position: nat, num: int)
      requires |data| > position + 4 && IsCount(num)
      modifies this
      ensures data == old(data[..position]) + Num(num) + old(data[position + 4..])
    {
      data := data[..position] + Num(num) + data[position + 4..];
    }

    /** The points of a line or of a loop. */
    method WriteList(points: seq<Bytes>, ring: bool, c: Checks) returns (ok: bool, k: Kept)
      modifies this
      ensures ok <==> SoFar(Distinct(points, c), ring, c)
      ensures ok ==> data == old(data) + Concat(Distinct(points, c)) && Tracks(k, Distinct(points, c), ring)
    {
      k := Kept(0, [], [], false, {});
      ghost var d := [];
      for i := 0 to |points|
        invariant d == Distinct(points[..i], c) && SoFar(d, ring, c) && Tracks(k, d, ring)
        invariant data == old(data) + Concat(d)
      {
        ListStep(points, i, ring, c, d, k);
        if !Skips(k, points[i], c) {
          if Rejects(k, points[i], ring, c) {
            return false, k;
          }
          ConcatStep(old(data), d, points[i]);
          d := d + [points[i]];
          k := Add(k, points[i], ring);
          Append(points[i]);
        }
      }
      assert points[..|points|] == points;
      ok := true;
    }

    /** A list of points; on failure the contents are of no use. */
    method WritePoints(points: seq<Bytes>, ring: bool, c: Checks) returns (ok: bool)
      requires FitPoints(points)
      modifies this
      ensures ok <==> GoodList(Distinct(points, c), ring, c)
      ensures ok ==> data == old(data) + EncodePoints(Distinct(points, c))
    {
      ghost var before, d := data, Distinct(points, c);
      var position := ReserveNum();
      var k;
      ok, k := WriteList(points, ring, c);
      ok := ok && k.count >= (if ring then RING_LEAST else LINE_LEAST) && (ring ==> c.same(k.first, k.last));
      if ok {
        ConcatSize(d);
        PatchedTail(before, [0, 0, 0, 0], Num(k.count), Concat(d));
        PatchNum(position, k.count);
      }
    }

    method WriteRings(rings: seq<seq<Bytes>>, c: Checks) returns (total: int)
      requires AllFit(rings)
      modifies this
      ensures total == -1 || total == |rings|
      ensures total >= 0 <==> AllGood(DistinctRings(rings, c), c)
      ensures total >= 0 ==> data == old(data) + EncodeRings(DistinctRings(rings, c))
    {
      ghost var d := DistinctRings(rings, c);
      total := 0;
      while total < |rings|
        invariant 0 <= total <= |rings|
        invariant AllGood(d[..total], c)
        invariant data == old(data) + EncodeRings(d[..total])
      {
        var ok := WritePoints(rings[total], true, c);
        if !ok {
          NotAllGood(d, total, c);
          return -1;
        }
        AllGoodStep(d, total, c);
        RingsStep(old(data), d, total);
        total := total + 1;
      }
      assert d[..total] == d;
    }

    /**
     The rings are written in a buffer of their own, after the space for a length word; what is
     appended is the polygon that comes back from the validation.
     */
    method WritePolygon(rings: seq<seq<Bytes>>, c: Checks) returns (ok: bool)
      requires Fits(Polygon(rings))
      modifies this
      ensures ok <==> Acceptable(Polygon(rings), false, c)
      ensures ok ==> data == old(data) + Encode(Clean(Polygon(rings), c))
    {
      if rings == [] {
        return false;
      }
      var d := DistinctRings(rings, c);
      var polygon := new Buffer([0, 0, 0, 0]);
      ok := polygon.WriteLoops(rings, c);
      if !ok {
        return false;
      }
      // The validation reads the polygon that was written.
      assert polygon.data[4..] == Encode(Polygon(d));
      var oriented := Oriented(d, c);
      ok := oriented.Some?;
      if ok {
        Append(Encode(Polygon(oriented.value)));
      }
    }

    method WriteLoops(rings: seq<seq<Bytes>>, c: Checks) returns (ok: bool)
      requires Fits(Polygon(rings)) && rings != [] && |data| == 4
      modifies this
      ensures ok <==> AllGood(DistinctRings(rings, c), c)
      ensures ok ==> |data| >= 4 && data[4..] == Encode(Polygon(DistinctRings(rings, c)))
    {
      ghost var d := DistinctRings(rings, c);
      ghost var word := data;
      Append(Header(POLYGON));
      var position := ReserveNum();
      var total := WriteRings(rings, c);
      ok := total >= 0;
      if ok {
        RingsNonEmpty(d);
        PatchedTail(word + Header(POLYGON), [0, 0, 0, 0], Num(total), EncodeRings(d));
        PatchNum(position, total);
        AfterWord(word, Header(POLYGON), Num(total) + EncodeRings(d));
      }
    }

    /** One part, in place, or in a buffer of its own when it is a member of a collection. */
    method WriteMember(part: Geometry, kind: int, inside: bool, c: Checks) returns (ok: bool)
      requires Fits(part)
      modifies this
      ensures ok <==> Acceptable(part, inside, c)
      ensures ok ==> data == old(data) + Encode(Clean(part, c))
      decreases part, 1
    {
      if kind == GEOMETRY_COLLECTION {
        var member := new Buffer([]);
        ok := member.WriteGeometry(part, inside, c);
        Append(member.data);
      } else {
        ok := WriteGeometry(part, inside, c);
      }
    }

    method WriteParts(parts: seq<Geometry>, kind: int, inside: bool, c: Checks) returns (total: int)
      requires forall p | p in parts :: Fits(p)
      modifies this
      ensures total == -1 || total == |parts|
      ensures total >= 0 <==> AllAcceptable(parts, inside, c)
      ensures total >= 0 ==> data == old(data) + EncodeAll(CleanAll(parts, c))
      decreases parts
    {
      ghost var clean := CleanAll(parts, c);
      total := 0;
      while total < |parts|
        invariant 0 <= total <= |parts|
        invariant AllAcceptable(parts[..total], inside, c)
        invariant data == old(data) + EncodeAll(clean[..total])
      {
        var ok := WriteMember(parts[total], kind, inside, c);
        if !ok {
          assert parts[total] in parts;
          return -1;
        }
        AcceptableStep(parts, total, inside, c);
        PartsStep(old(data), clean, total);
        total := total + 1;
      }
      assert clean[..total] == clean && parts[..total] == parts;
    }

    /** The whole geometry; on failure the contents are of no use. */
    method WriteGeometry(g: Geometry, inside: bool, c: Checks) returns (ok: bool)
      requires Fits(g)
      modifies this
      ensures ok <==> Acceptable(g, inside, c)
      ensures ok ==> data == old(data) + Encode(Clean(g, c))
      decreases g, 0
    {
      match g
      case Point(coordinates) =>
        Append(Header(POINT));
        Append(coordinates);
        Text.Regroup(old(data), Header(POINT), coordinates);
        ok := true;
      case LineString(points) =>
        Append(Header(LINE_STRING));
        ok := WritePoints(points, false, c);
        Text.Regroup(old(data), Header(LINE_STRING), EncodePoints(Distinct(points, c)));
      case Polygon(rings) =>
        ok := WritePolygon(rings, c);
      case Multi(kind, parts) =>
        if (inside && kind == GEOMETRY_COLLECTION) || parts == [] {
          return false;
        }
        Append(Header(kind));
        var position := ReserveNum();
        var total := WriteParts(parts, kind, inside || kind == GEOMETRY_COLLECTION, c);
        if total < 0 {
          return false;
        }
        ghost var clean := CleanAll(parts, c);
        EncodeAllStart(clean);
        PatchedTail(old(data) + Header(kind), [0, 0, 0, 0], Num(total), EncodeAll(clean));
        PatchNum(position, total);
        Text.Regroup(old(data), Header(kind), Num(total) + EncodeAll(clean));
        ok := true;
    }
  }

  lemma AfterWord(word: Bytes, header: Bytes, content: Bytes)
    requires |word| == 4
    ensures ((word + header) + content)[4..] == header + content
  {
  }

  lemma RingsNonEmpty(rings: seq<seq<Bytes>>)
    requires rings != [] && AllFit(rings)
    ensures |EncodeRings(rings)| > 0
  {
  }
}
