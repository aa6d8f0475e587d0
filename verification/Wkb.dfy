/**
 Well-known binary geometries (clause 8 of OGC 06-103r4, Simple Feature Access Part 1) on a
 little-endian host, and the extended form that carries a spatial reference identifier.
 */
module Wkb {
  import Text

  type Byte = b: int | 0 <= b < 0x100
  type Bytes = seq<Byte>

  const LITTLE_ENDIAN: Byte := 1
  const POINT_SIZE := 16
  const SRID_FLAG := 0x2000_0000
  const DEFAULT_SRID := 4326

  const POINT := 1
  const LINE_STRING := 2
  const POLYGON := 3
  const MULTI_POINT := 4
  const GEOMETRY_COLLECTION := 7

  predicate IsCollection(kind: int) {
    MULTI_POINT <= kind <= GEOMETRY_COLLECTION
  }

  // ----- 32-bit numbers -----

  predicate IsU32(n: int) {
    0 <= n < 0x1_0000_0000
  }

  predicate IsCount(n: int) {
    0 <= n < 0x8000_0000
  }

  function Num(n: int): (b: Bytes)
    requires IsU32(n)
    ensures |b| == 4
  {
    [n % 0x100, n / 0x100 % 0x100, n / 0x1_0000 % 0x100, n / 0x100_0000]
  }

  function Unsigned(b: Bytes): (n: int)
    requires |b| == 4
    ensures IsU32(n)
  {
    b[0] as int + 0x100 * b[1] as int + 0x1_0000 * b[2] as int + 0x100_0000 * b[3] as int
  }

  function Signed(b: Bytes): int
    requires |b| == 4
  {
    var n := Unsigned(b);
    if n < 0x8000_0000 then n else n - 0x1_0000_0000
  }

  lemma NumRoundTrip(n: int)
    requires IsU32(n)
    ensures Unsigned(Num(n)) == n
  {
    var a := n / 0x100;
    var b := a / 0x100;
    assert n / 0x1_0000 == b && n / 0x100_0000 == b / 0x100;
  }

  lemma UnsignedRoundTrip(b: Bytes)
    requires |b| == 4
    ensures Num(Unsigned(b)) == b
  {
    var n := Unsigned(b);
    var a := b[1] as int + 0x100 * b[2] as int + 0x1_0000 * b[3] as int;
    assert n == b[0] as int + 0x100 * a;
    assert n / 0x100 == a && n % 0x100 == b[0];
    assert n / 0x1_0000 == a / 0x100 == b[2] as int + 0x100 * b[3] as int;
    assert n / 0x100_0000 == b[3];
  }

  // ----- Geometries -----

  datatype Geometry =
    | Point(coordinates: Bytes)
    | LineString(points: seq<Bytes>)
    | Polygon(rings: seq<seq<Bytes>>)
    | Multi(kind: int, parts: seq<Geometry>)

  function KindOf(g: Geometry): int {
    match g
    case Point(_) => POINT
    case LineString(_) => LINE_STRING
    case Polygon(_) => POLYGON
    case Multi(kind, _) => kind
  }

  predicate FitPoints(points: seq<Bytes>) {
    IsCount(|points|) && forall p | p in points :: |p| == POINT_SIZE
  }

  predicate AllFit(rings: seq<seq<Bytes>>) {
    forall i | 0 <= i < |rings| :: FitPoints(rings[i])
  }

  /** Points have two coordinates of eight bytes, and every count fits its four bytes. */
  predicate Fits(g: Geometry) {
    match g
    case Point(c) => |c| == POINT_SIZE
    case LineString(points) => FitPoints(points)
    case Polygon(rings) => IsCount(|rings|) && AllFit(rings)
    case Multi(kind, parts) => IsCollection(kind) && IsCount(|parts|) && forall p | p in parts :: Fits(p)
  }

  function Header(kind: int): (b: Bytes)
    requires IsU32(kind)
    ensures |b| == 5
  {
    [LITTLE_ENDIAN] + Num(kind)
  }

  function Concat(blocks: seq<Bytes>): Bytes {
    if blocks == [] then [] else blocks[0] + Concat(blocks[1..])
  }

  function EncodePoints(points: seq<Bytes>): Bytes
    requires FitPoints(points)
  {
    Num(|points|) + Concat(points)
  }

  function EncodeRings(rings: seq<seq<Bytes>>): Bytes
    requires AllFit(rings)
  {
    if rings == [] then [] else EncodePoints(rings[0]) + EncodeRings(rings[1..])
  }

  /** What follows the header; every count is known before its elements are written. */
  function Content(g: Geometry): Bytes
    requires Fits(g)
    decreases g, 0
  {
    match g
    case Point(c) => c
    case LineString(points) => EncodePoints(points)
    case Polygon(rings) => Num(|rings|) + EncodeRings(rings)
    case Multi(_, parts) => Num(|parts|) + EncodeAll(parts)
  }

  function Encode(g: Geometry): Bytes
    requires Fits(g)
    decreases g, 1
  {
    Header(KindOf(g)) + Content(g)
  }

  function EncodeAll(parts: seq<Geometry>): Bytes
    requires forall p | p in parts :: Fits(p)
    decreases parts
  {
    if parts == [] then [] else Encode(parts[0]) + EncodeAll(parts[1..])
  }

  lemma {:induction false} ConcatSnoc(blocks: seq<Bytes>, b: Bytes)
    ensures Concat(blocks + [b]) == Concat(blocks) + b
  {
    if blocks == [] {
      assert blocks + [b] == [b];
      assert [b][1..] == [];
    } else {
      ConcatSnoc(blocks[1..], b);
      assert (blocks + [b])[1..] == blocks[1..] + [b];
    }
  }

  lemma {:induction false} EncodeRingsSnoc(rings: seq<seq<Bytes>>, r: seq<Bytes>)
    requires FitPoints(r) && AllFit(rings)
    ensures EncodeRings(rings + [r]) == EncodeRings(rings) + EncodePoints(r)
  {
    if rings == [] {
      assert rings + [r] == [r];
      assert [r][1..] == [];
    } else {
      var rest := rings[1..];
      EncodeRingsSnoc(rest, r);
      assert (rings + [r])[1..] == rest + [r];
      Text.Regroup(EncodePoints(rings[0]), EncodeRings(rest), EncodePoints(r));
    }
  }

  lemma {:induction false} EncodeAllSnoc(parts: seq<Geometry>, g: Geometry)
    requires Fits(g) && forall p | p in parts :: Fits(p)
    ensures EncodeAll(parts + [g]) == EncodeAll(parts) + Encode(g)
  {
    if parts == [] {
      assert parts + [g] == [g];
      assert [g][1..] == [];
    } else {
      EncodeAllSnoc(parts[1..], g);
      assert (parts + [g])[1..] == parts[1..] + [g];
    }
  }

  lemma {:induction false} ConcatSize(points: seq<Bytes>)
    requires forall p | p in points :: |p| == POINT_SIZE
    ensures |Concat(points)| == POINT_SIZE * |points|
  {
    if points != [] {
      ConcatSize(points[1..]);
    }
  }

  // ----- The extended form -----

  predicate HasFlag(kind: int) {
    kind / SRID_FLAG % 2 == 1
  }

  /** The flag bit set, whether or not it was. */
  function SetFlag(kind: int): (k: int)
    requires IsU32(kind)
    ensures IsU32(k) && HasFlag(k)
  {
    if HasFlag(kind) then kind else kind + SRID_FLAG
  }

  /** The flag bit cleared. */
  function ClearFlag(kind: int): (k: int)
    requires IsU32(kind)
    ensures IsU32(k) && !HasFlag(k)
  {
    if HasFlag(kind) then kind - SRID_FLAG else kind
  }

  /** The identifier put after the type of a single geometry. */
  function WithSrid(wkb: Bytes): Bytes
    requires |wkb| >= 5
  {
    wkb[..1] + Num(SetFlag(Unsigned(wkb[1..5]))) + Num(DEFAULT_SRID) + wkb[5..]
  }

  /** A collection header with the identifier put before several geometries. */
  function CollectionWithSrid(wkb: Bytes, kind: int, total: int): Bytes
    requires |wkb| >= 1 && IsCollection(kind) && IsCount(total)
  {
    wkb[..1] + Num(SetFlag(kind)) + Num(DEFAULT_SRID) + Num(total) + wkb
  }

  /** The flag masked and the four bytes of the identifier dropped. */
  function WithoutSrid(ewkb: Bytes): Bytes
    requires |ewkb| >= 9
  {
    ewkb[..1] + Num(ClearFlag(Unsigned(ewkb[1..5]))) + ewkb[9..]
  }

  /** Dropping the identifier undoes adding it, if and only if the type did not have the flag. */
  lemma SridUndoneExactly(wkb: Bytes)
    requires |wkb| >= 5
    ensures |WithSrid(wkb)| == |wkb| + 4
    ensures WithoutSrid(WithSrid(wkb)) == wkb <==> !HasFlag(Unsigned(wkb[1..5]))
  {
    var e := WithSrid(wkb);
    var kind := Unsigned(wkb[1..5]);
    NumRoundTrip(SetFlag(kind));
    UnsignedRoundTrip(wkb[1..5]);
    assert e[1..5] == Num(SetFlag(kind)) && e[..1] == wkb[..1] && e[9..] == wkb[5..];
    var back := WithoutSrid(e);
    assert back[1..5] == Num(ClearFlag(SetFlag(kind)));
    NumRoundTrip(ClearFlag(SetFlag(kind)));
    if !HasFlag(kind) {
      assert wkb == wkb[..1] + wkb[1..5] + wkb[5..];
    }
  }

  /** The type of a point with the flag already set: it comes back without the flag. */
  lemma FlagIsLost()
    ensures var kind := [LITTLE_ENDIAN] + Num(POINT + SRID_FLAG);
            WithoutSrid(WithSrid(kind)) == [LITTLE_ENDIAN] + Num(POINT) != kind
  {
    var kind := [LITTLE_ENDIAN] + Num(POINT + SRID_FLAG);
    assert kind[1..5] == Num(POINT + SRID_FLAG) && kind[..1] == [LITTLE_ENDIAN] && kind[5..] == [];
    NumRoundTrip(POINT + SRID_FLAG);
    var e := WithSrid(kind);
    assert e[1..5] == Num(POINT + SRID_FLAG) && e[..1] == [LITTLE_ENDIAN] && e[9..] == [];
  }

  lemma HeaderParts(kind: int, content: Bytes)
    requires IsU32(kind)
    ensures var b := Header(kind) + content;
            b[..1] == [LITTLE_ENDIAN] && b[1..5] == Num(kind) && b[5..] == content
  {
  }

  lemma EncodeAllStart(parts: seq<Geometry>)
    requires parts != [] && forall p | p in parts :: Fits(p)
    ensures |EncodeAll(parts)| >= 5 && EncodeAll(parts)[..1] == [LITTLE_ENDIAN]
  {
    var first := Encode(parts[0]);
    assert EncodeAll(parts) == first + EncodeAll(parts[1..]);
    assert |first| >= 5 && first[0] == LITTLE_ENDIAN;
  }

  /** Collecting encoded geometries is the extended form of the collection of them. */
  lemma CollectionExactly(kind: int, parts: seq<Geometry>)
    requires Fits(Multi(kind, parts)) && parts != []
    ensures |EncodeAll(parts)| >= 1 && |Encode(Multi(kind, parts))| >= 5
    ensures CollectionWithSrid(EncodeAll(parts), kind, |parts|) == WithSrid(Encode(Multi(kind, parts)))
  {
    var g := Multi(kind, parts);
    EncodeAllStart(parts);
    HeaderParts(kind, Content(g));
    NumRoundTrip(kind);
    Text.Regroup(Num(SetFlag(kind)) + Num(DEFAULT_SRID), Num(|parts|), EncodeAll(parts));
  }

  lemma KindIsPlain(g: Geometry)
    requires Fits(g)
    ensures IsU32(KindOf(g)) && !HasFlag(KindOf(g))
  {
  }

  /** On every geometry's encoding, dropping the identifier undoes adding it. */
  lemma SridUndone(g: Geometry)
    requires Fits(g)
    ensures |Encode(g)| >= 5 && |WithSrid(Encode(g))| >= 9
    ensures WithoutSrid(WithSrid(Encode(g))) == Encode(g)
  {
    HeaderParts(KindOf(g), Content(g));
    KindIsPlain(g);
    NumRoundTrip(KindOf(g));
    SridUndoneExactly(Encode(g));
  }
}
