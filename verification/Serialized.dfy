/** The recursive binary form of geometries in liblwgeom/gserialized2.c: the bytes the writers
    produce, the parser, and the round trip between them. */
module Serialized {
  import opened Arith
  import opened ByteOrder
  import opened GeomTypes

  /** The varlena header has 30 bits for the size of a serialized geometry. */
  const SIZE_LIMIT := 0x4000_0000

  /** The eight bytes of a double, as a number. */
  type Ordinate = x: int | 0 <= x < 0x1_0000_0000_0000_0000

  /** x, y, then z and m where the geometry has them. */
  type Coordinate = seq<Ordinate>
  type PointArray = seq<Coordinate>

  datatype Geometry =
    | Point(points: PointArray)
    | Line(points: PointArray)
    | Triangle(points: PointArray)
    | CircString(points: PointArray)
    | Polygon(rings: seq<PointArray>)
    | Collection(kind: nat, geoms: seq<Geometry>)

  function TypeOf(g: Geometry): nat {
    match g
    case Point(_) => POINTTYPE
    case Line(_) => LINETYPE
    case Triangle(_) => TRIANGLETYPE
    case CircString(_) => CIRCSTRINGTYPE
    case Polygon(_) => POLYGONTYPE
    case Collection(kind, _) => kind
  }

  /** The number written after the type: of points, rings or members. */
  function Count(g: Geometry): nat {
    match g
    case Polygon(rings) => |rings|
    case Collection(_, geoms) => |geoms|
    case _ => |g.points|
  }

  predicate Uniform(points: PointArray, dims: nat) {
    forall i :: 0 <= i < |points| ==> |points[i]| == dims
  }

  /** One dimensionality throughout, at most one coordinate in a point, collection types in collections. */
  predicate WellFormed(g: Geometry, dims: nat) {
    2 <= dims <= 4 &&
    match g
    case Point(points) => |points| <= 1 && Uniform(points, dims)
    case Polygon(rings) => forall i :: 0 <= i < |rings| ==> Uniform(rings[i], dims)
    case Collection(kind, geoms) =>
      IsCollectionType(kind) && forall i :: 0 <= i < |geoms| ==> WellFormed(geoms[i], dims)
    case _ => Uniform(g.points, dims)
  }

  /** Every member of every collection is of a type that the collection allows. */
  predicate SubtypesAllowed(g: Geometry) {
    match g
    case Collection(kind, geoms) =>
      forall i :: 0 <= i < |geoms| ==> AllowsSubtype(kind, TypeOf(geoms[i])) && SubtypesAllowed(geoms[i])
    case _ => true
  }

  ghost predicate MembersAllowed(kind: nat, geoms: seq<Geometry>) {
    forall i :: 0 <= i < |geoms| ==> AllowsSubtype(kind, TypeOf(geoms[i])) && SubtypesAllowed(geoms[i])
  }

  ghost predicate AllWellFormed(geoms: seq<Geometry>, dims: nat) {
    forall i :: 0 <= i < |geoms| ==> WellFormed(geoms[i], dims)
  }

  lemma FirstAndRest(kind: nat, geoms: seq<Geometry>, dims: nat)
    requires geoms != []
    ensures MembersAllowed(kind, geoms) <==>
            AllowsSubtype(kind, TypeOf(geoms[0])) && SubtypesAllowed(geoms[0]) && MembersAllowed(kind, geoms[1..])
    ensures AllWellFormed(geoms, dims) <==> WellFormed(geoms[0], dims) && AllWellFormed(geoms[1..], dims)
  {
    hide AllowsSubtype, SubtypesAllowed, TypeOf, WellFormed;
    assert forall i :: 1 <= i < |geoms| ==> geoms[i] == geoms[1..][i - 1];
  }

  // ----- the bytes of a geometry -----

  function Head(kind: nat, count: nat): (s: seq<byte>)
    ensures |s| == 8
  {
    Little(kind, 4) + Little(count, 4)
  }

  function CoordinateBytes(p: Coordinate): (s: seq<byte>)
    ensures |s| == 8 * |p|
  {
    if p == [] then [] else Little(p[0], 8) + CoordinateBytes(p[1..])
  }

  function PointsBytes(points: PointArray): seq<byte> {
    if points == [] then [] else CoordinateBytes(points[0]) + PointsBytes(points[1..])
  }

  function RingCounts(rings: seq<PointArray>): (s: seq<byte>)
    ensures |s| == 4 * |rings|
  {
    if rings == [] then [] else Little(|rings[0]|, 4) + RingCounts(rings[1..])
  }

  /** After an odd number of counts, to keep the ordinates aligned. */
  function Padding(count: nat): (s: seq<byte>)
    ensures |s| == if count % 2 == 1 then 4 else 0
  {
    if count % 2 == 1 then Little(0, 4) else []
  }

  function RingsBytes(rings: seq<PointArray>): seq<byte> {
    if rings == [] then [] else PointsBytes(rings[0]) + RingsBytes(rings[1..])
  }

  function Bytes(g: Geometry): (s: seq<byte>)
    ensures 8 <= |s|
    decreases g, 0
  {
    match g
    case Polygon(rings) => Head(POLYGONTYPE, |rings|) + (RingCounts(rings) + Padding(|rings|) + RingsBytes(rings))
    case Collection(kind, geoms) => Head(kind, |geoms|) + AllBytes(geoms)
    case _ => Head(TypeOf(g), |g.points|) + PointsBytes(g.points)
  }

  function AllBytes(geoms: seq<Geometry>): (s: seq<byte>)
    ensures 8 * |geoms| <= |s|
    decreases geoms, 1
  {
    if geoms == [] then [] else Bytes(geoms[0]) + AllBytes(geoms[1..])
  }

  /** npoints * ndims * sizeof(double). */
  function RunLength(n: nat, dims: nat): nat {
    n * dims * 8
  }

  lemma RunLengthNext(n: nat, dims: nat)
    requires 0 < n
    ensures RunLength(n, dims) == 8 * dims + RunLength(n - 1, dims)
  {
    assert (n - 1) * dims == n * dims - dims;
  }

  lemma RunLengthZero(dims: nat)
    ensures RunLength(0, dims) == 0
  {
  }

  lemma {:induction false} PointsBytesLength(points: PointArray, dims: nat)
    requires Uniform(points, dims)
    ensures |PointsBytes(points)| == RunLength(|points|, dims)
  {
    hide RunLength;
    if points != [] {
      PointsBytesLength(points[1..], dims);
      RunLengthNext(|points|, dims);
    } else {
      RunLengthZero(dims);
    }
  }

  // ----- the parser -----

  datatype Parsed = Parsed(geom: Geometry, next: nat) | Bad
  datatype Several = Several(geoms: seq<Geometry>, after: nat) | BadMember

  function Uint32(buf: seq<byte>, at: nat): (v: nat)
    requires at + 4 <= |buf|
    ensures v < 0x1_0000_0000
  {
    ValueBound(buf[at..at + 4]);
    assert Pow256(4) == 0x1_0000_0000;
    Value(buf[at..at + 4])
  }

  function Double(buf: seq<byte>, at: nat): Ordinate
    requires at + 8 <= |buf|
  {
    ValueBound(buf[at..at + 8]);
    assert Pow256(8) == 0x1_0000_0000_0000_0000;
    Value(buf[at..at + 8])
  }

  function ReadCoordinate(buf: seq<byte>, at: nat, dims: nat): (p: Coordinate)
    requires at + 8 * dims <= |buf|
    ensures |p| == dims
    decreases dims
  {
    if dims == 0 then [] else [Double(buf, at)] + ReadCoordinate(buf, at + 8, dims - 1)
  }

  function ReadPoints(buf: seq<byte>, at: nat, n: nat, dims: nat): (points: PointArray)
    requires at + RunLength(n, dims) <= |buf|
    ensures |points| == n && Uniform(points, dims)
    decreases n
  {
    if n == 0 then []
    else
      RunLengthNext(n, dims);
      [ReadCoordinate(buf, at, dims)] + ReadPoints(buf, at + 8 * dims, n - 1, dims)
  }

  datatype Rings = Rings(rings: seq<PointArray>, after: nat) | BadRing

  /** The rings whose counts stand from at on; their ordinates start at ord. */
  function ReadRings(buf: seq<byte>, at: nat, ord: nat, n: nat, dims: nat): (r: Rings)
    requires at + 4 * n <= |buf| && ord <= |buf|
    ensures r.Rings? ==> |r.rings| == n && ord <= r.after <= |buf|
    decreases n
  {
    if n == 0 then Rings([], ord)
    else
      var npoints := Uint32(buf, at);
      if ord + RunLength(npoints, dims) > |buf| then BadRing
      else
        var rest := ReadRings(buf, at + 4, ord + RunLength(npoints, dims), n - 1, dims);
        if rest.BadRing? then BadRing
        else Rings([ReadPoints(buf, ord, npoints, dims)] + rest.rings, rest.after)
  }

  function WithPoints(kind: nat, points: PointArray): Geometry
    requires kind in {POINTTYPE, LINETYPE, TRIANGLETYPE, CIRCSTRINGTYPE}
  {
    if kind == POINTTYPE then Point(points)
    else if kind == LINETYPE then Line(points)
    else if kind == TRIANGLETYPE then Triangle(points)
    else CircString(points)
  }

  /** The geometry that starts at at and the position after it; Bad where the reader raises an error
      or would leave the buffer. */
  function Parse(buf: seq<byte>, at: nat, dims: nat): (r: Parsed)
    requires at <= |buf|
    ensures r.Parsed? ==> at + 8 <= r.next <= |buf|
    decreases |buf| - at, 0
  {
    if at + 8 > |buf| then Bad
    else
      var kind, n := Uint32(buf, at), Uint32(buf, at + 4);
      if kind in {POINTTYPE, LINETYPE, TRIANGLETYPE, CIRCSTRINGTYPE} then
        ParseSimple(buf, at + 8, kind, n, dims)
      else if kind == POLYGONTYPE then ParsePolygon(buf, at + 8, n, dims)
      else if IsCollectionType(kind) then
        var members := ParseMembers(buf, at + 8, kind, n, dims);
        if members.BadMember? then Bad else Parsed(Collection(kind, members.geoms), members.after)
      else Bad
  }

  /** A point takes one coordinate from its data but moves on past all of them. */
  function ParseSimple(buf: seq<byte>, at: nat, kind: nat, n: nat, dims: nat): (r: Parsed)
    requires at <= |buf| && kind in {POINTTYPE, LINETYPE, TRIANGLETYPE, CIRCSTRINGTYPE}
    ensures r.Parsed? ==> at <= r.next <= |buf|
  {
    if at + RunLength(n, dims) > |buf| then Bad
    else
      var points := ReadPoints(buf, at, n, dims);
      Parsed(WithPoints(kind, if kind == POINTTYPE && 1 < n then points[..1] else points), at + RunLength(n, dims))
  }

  function ParsePolygon(buf: seq<byte>, at: nat, n: nat, dims: nat): (r: Parsed)
    requires at <= |buf|
    ensures r.Parsed? ==> at <= r.next <= |buf|
  {
    var ord := at + 4 * n + if n % 2 == 1 then 4 else 0;
    if ord > |buf| then Bad
    else
      var r := ReadRings(buf, at, ord, n, dims);
      if r.BadRing? then Bad else Parsed(Polygon(r.rings), r.after)
  }

  function ParseMembers(buf: seq<byte>, at: nat, kind: nat, n: nat, dims: nat): (r: Several)
    requires at <= |buf|
    ensures r.Several? ==> |r.geoms| == n && at <= r.after <= |buf|
    decreases |buf| - at, 1
  {
    if n == 0 then Several([], at)
    else if at + 4 > |buf| || !AllowsSubtype(kind, Uint32(buf, at)) then BadMember
    else
      var first := Parse(buf, at, dims);
      if first.Bad? then BadMember
      else
        var rest := ParseMembers(buf, first.next, kind, n - 1, dims);
        if rest.BadMember? then BadMember else Several([first.geom] + rest.geoms, rest.after)
  }

  // ----- the round trip -----

  lemma ReadsUint32(buf: seq<byte>, at: nat, v: nat)
    requires At(buf, at, Little(v, 4)) && v < 0x1_0000_0000
    ensures at + 4 <= |buf| && Uint32(buf, at) == v
  {
    assert Pow256(4) == 0x1_0000_0000;
    ValueOfLittle(v, 4);
  }

  lemma ReadsDouble(buf: seq<byte>, at: nat, v: Ordinate)
    requires At(buf, at, Little(v, 8))
    ensures at + 8 <= |buf| && Double(buf, at) == v
  {
    assert Pow256(8) == 0x1_0000_0000_0000_0000;
    ValueOfLittle(v, 8);
  }

  lemma ReadsHead(buf: seq<byte>, at: nat, kind: nat, count: nat)
    requires At(buf, at, Head(kind, count)) && kind < 0x1_0000_0000 && count < 0x1_0000_0000
    ensures at + 8 <= |buf| && Uint32(buf, at) == kind && Uint32(buf, at + 4) == count
  {
    hide At, Uint32;
    HeadParts(buf, at, kind, count);
    ReadsUint32(buf, at, kind);
    ReadsUint32(buf, at + 4, count);
  }

  lemma HeadParts(buf: seq<byte>, at: nat, kind: nat, count: nat)
    requires At(buf, at, Head(kind, count))
    ensures At(buf, at, Little(kind, 4)) && At(buf, at + 4, Little(count, 4))
  {
    AtSplit(buf, at, Little(kind, 4), Little(count, 4));
  }

  lemma {:induction false} ReadsCoordinate(buf: seq<byte>, at: nat, p: Coordinate)
    requires At(buf, at, CoordinateBytes(p))
    ensures at + 8 * |p| <= |buf| && ReadCoordinate(buf, at, |p|) == p
    decreases p
  {
    if p != [] {
      AtSplit(buf, at, Little(p[0], 8), CoordinateBytes(p[1..]));
      ReadsDouble(buf, at, p[0]);
      ReadsCoordinate(buf, at + 8, p[1..]);
    }
  }

  lemma {:induction false} ReadsPoints(buf: seq<byte>, at: nat, points: PointArray, dims: nat)
    requires At(buf, at, PointsBytes(points)) && Uniform(points, dims)
    ensures at + RunLength(|points|, dims) <= |buf| && ReadPoints(buf, at, |points|, dims) == points
    decreases points
  {
    hide RunLength, ReadCoordinate, CoordinateBytes;
    PointsBytesLength(points, dims);
    if points != [] {
      RunLengthNext(|points|, dims);
      AtSplit(buf, at, CoordinateBytes(points[0]), PointsBytes(points[1..]));
      ReadsCoordinate(buf, at, points[0]);
      ReadsPoints(buf, at + 8 * dims, points[1..], dims);
    }
  }

  lemma {:induction false} ReadsRings(buf: seq<byte>, at: nat, ord: nat, rings: seq<PointArray>, dims: nat)
    requires forall i :: 0 <= i < |rings| ==> Uniform(rings[i], dims) && |rings[i]| < 0x1_0000_0000
    requires At(buf, at, RingCounts(rings)) && At(buf, ord, RingsBytes(rings))
    ensures at + 4 * |rings| <= |buf| && ord + |RingsBytes(rings)| <= |buf|
    ensures ReadRings(buf, at, ord, |rings|, dims) == Rings(rings, ord + |RingsBytes(rings)|)
    decreases rings
  {
    hide RunLength, Uint32, ReadPoints, PointsBytes, Uniform;
    if rings != [] {
      AtSplit(buf, at, Little(|rings[0]|, 4), RingCounts(rings[1..]));
      AtSplit(buf, ord, PointsBytes(rings[0]), RingsBytes(rings[1..]));
      ReadsUint32(buf, at, |rings[0]|);
      PointsBytesLength(rings[0], dims);
      ReadsPoints(buf, ord, rings[0], dims);
      ReadsRings(buf, at + 4, ord + |PointsBytes(rings[0])|, rings[1..], dims);
    }
  }

  lemma FewPoints(points: PointArray, dims: nat)
    requires Uniform(points, dims) && 2 <= dims
    ensures |points| <= |PointsBytes(points)|
  {
    PointsBytesLength(points, dims);
    if points != [] { MulAtLeast(dims, |points|); }
  }

  lemma {:induction false} RingsFit(rings: seq<PointArray>, dims: nat)
    requires 2 <= dims && forall i :: 0 <= i < |rings| ==> Uniform(rings[i], dims)
    ensures forall i :: 0 <= i < |rings| ==> |rings[i]| <= |RingsBytes(rings)|
  {
    if rings != [] {
      FewPoints(rings[0], dims);
      RingsFit(rings[1..], dims);
      forall i | 0 <= i < |rings| ensures |rings[i]| <= |RingsBytes(rings)| {
        if 0 < i { assert rings[i] == rings[1..][i - 1]; }
      }
    }
  }

  lemma SimpleRoundTrip(g: Geometry, dims: nat, buf: seq<byte>, at: nat)
    requires WellFormed(g, dims) && !g.Polygon? && !g.Collection?
    requires |Bytes(g)| < SIZE_LIMIT && At(buf, at, Bytes(g))
    ensures at + 8 <= |buf| && Parse(buf, at, dims) == Parsed(g, at + |Bytes(g)|)
  {
    hide At, PointsBytes, Head, ReadPoints, Uint32, RunLength;
    SimpleHead(g, buf, at);
    FewPoints(g.points, dims);
    PointsBytesLength(g.points, dims);
    ReadsHead(buf, at, TypeOf(g), |g.points|);
    ReadsPoints(buf, at + 8, g.points, dims);
  }

  lemma SimpleHead(g: Geometry, buf: seq<byte>, at: nat)
    requires !g.Polygon? && !g.Collection? && At(buf, at, Bytes(g))
    ensures At(buf, at, Head(TypeOf(g), |g.points|)) && At(buf, at + 8, PointsBytes(g.points))
    ensures |Bytes(g)| == 8 + |PointsBytes(g.points)|
  {
    AtSplit(buf, at, Head(TypeOf(g), |g.points|), PointsBytes(g.points));
  }

  lemma PolygonHead(rings: seq<PointArray>, buf: seq<byte>, at: nat)
    requires At(buf, at, Bytes(Polygon(rings)))
    ensures At(buf, at, Head(POLYGONTYPE, |rings|)) && At(buf, at + 8, RingCounts(rings))
    ensures At(buf, at + 8 + 4 * |rings| + |Padding(|rings|)|, RingsBytes(rings))
    ensures |Bytes(Polygon(rings))| == 8 + 4 * |rings| + |Padding(|rings|)| + |RingsBytes(rings)|
  {
    hide At, Head, RingCounts, RingsBytes, Padding;
    AtSplit(buf, at, Head(POLYGONTYPE, |rings|), RingCounts(rings) + Padding(|rings|) + RingsBytes(rings));
    AtSplit(buf, at + 8, RingCounts(rings) + Padding(|rings|), RingsBytes(rings));
    AtSplit(buf, at + 8, RingCounts(rings), Padding(|rings|));
  }

  lemma PolygonRoundTrip(rings: seq<PointArray>, dims: nat, buf: seq<byte>, at: nat)
    requires WellFormed(Polygon(rings), dims) && |Bytes(Polygon(rings))| < SIZE_LIMIT
    requires At(buf, at, Bytes(Polygon(rings)))
    ensures at + 8 <= |buf| && Parse(buf, at, dims) == Parsed(Polygon(rings), at + |Bytes(Polygon(rings))|)
  {
    hide At, Head, ReadRings, RingsBytes, RingCounts, Uint32, Bytes;
    PolygonHead(rings, buf, at);
    RingsFit(rings, dims);
    ReadsHead(buf, at, POLYGONTYPE, |rings|);
    ReadsRings(buf, at + 8, at + 8 + 4 * |rings| + |Padding(|rings|)|, rings, dims);
  }

  lemma CollectionHead(kind: nat, geoms: seq<Geometry>, buf: seq<byte>, at: nat)
    requires At(buf, at, Bytes(Collection(kind, geoms)))
    ensures At(buf, at, Head(kind, |geoms|)) && At(buf, at + 8, AllBytes(geoms))
    ensures |Bytes(Collection(kind, geoms))| == 8 + |AllBytes(geoms)|
  {
    hide At, Head, AllBytes;
    AtSplit(buf, at, Head(kind, |geoms|), AllBytes(geoms));
  }

  lemma MembersHead(geoms: seq<Geometry>, buf: seq<byte>, at: nat)
    requires geoms != [] && At(buf, at, AllBytes(geoms))
    ensures At(buf, at, Bytes(geoms[0])) && At(buf, at + |Bytes(geoms[0])|, AllBytes(geoms[1..]))
    ensures |AllBytes(geoms)| == |Bytes(geoms[0])| + |AllBytes(geoms[1..])|
  {
    hide At, Bytes;
    AtSplit(buf, at, Bytes(geoms[0]), AllBytes(geoms[1..]));
  }

  lemma TypeIsFirst(g: Geometry, buf: seq<byte>, at: nat, dims: nat)
    requires WellFormed(g, dims) && At(buf, at, Bytes(g))
    ensures at + 4 <= |buf| && Uint32(buf, at) == TypeOf(g)
  {
    hide Uint32;
    var rest: seq<byte>;
    match g {
      case Polygon(rings) => rest := RingCounts(rings) + Padding(|rings|) + RingsBytes(rings);
      case Collection(_, geoms) => rest := AllBytes(geoms);
      case _ => rest := PointsBytes(g.points);
    }
    AtSplit(buf, at, Head(TypeOf(g), Count(g)), rest);
    HeadParts(buf, at, TypeOf(g), Count(g));
    ReadsUint32(buf, at, TypeOf(g));
  }

  /** Reading back the written bytes gives the geometry and the position right after them; exactly
      when some collection holds a member it does not allow, the reader refuses. */
  lemma {:induction false} RoundTrip(g: Geometry, dims: nat, buf: seq<byte>, at: nat)
    requires WellFormed(g, dims) && |Bytes(g)| < SIZE_LIMIT && At(buf, at, Bytes(g))
    ensures at + 8 <= |buf|
    ensures Parse(buf, at, dims) == if SubtypesAllowed(g) then Parsed(g, at + |Bytes(g)|) else Bad
    decreases g, 0
  {
    if g.Collection? {
      hide At, Head, Uint32, Bytes, ParseMembers;
      CollectionHead(g.kind, g.geoms, buf, at);
      ReadsHead(buf, at, g.kind, |g.geoms|);
      MembersRoundTrip(g.kind, g.geoms, dims, buf, at + 8);
    } else if g.Polygon? {
      PolygonRoundTrip(g.rings, dims, buf, at);
    } else {
      SimpleRoundTrip(g, dims, buf, at);
    }
  }

  lemma ParseMembersEnds(buf: seq<byte>, at: nat, kind: nat, dims: nat)
    requires at <= |buf|
    ensures ParseMembers(buf, at, kind, 0, dims) == Several([], at)
  {
  }

  lemma ParseMembersRefuses(buf: seq<byte>, at: nat, kind: nat, n: nat, dims: nat)
    requires 0 < n && at + 4 <= |buf| && !AllowsSubtype(kind, Uint32(buf, at))
    ensures ParseMembers(buf, at, kind, n, dims) == BadMember
  {
    hide Parse, AllowsSubtype, Uint32;
  }

  lemma ParseMembersNext(buf: seq<byte>, at: nat, kind: nat, n: nat, dims: nat)
    requires 0 < n && at + 4 <= |buf| && AllowsSubtype(kind, Uint32(buf, at))
    ensures var first := Parse(buf, at, dims);
            ParseMembers(buf, at, kind, n, dims) ==
            if first.Bad? then BadMember
            else
              var rest := ParseMembers(buf, first.next, kind, n - 1, dims);
              if rest.BadMember? then BadMember else Several([first.geom] + rest.geoms, rest.after)
  {
    hide Parse, AllowsSubtype, Uint32;
  }

  lemma {:induction false} MembersRoundTrip(kind: nat, geoms: seq<Geometry>, dims: nat, buf: seq<byte>, at: nat)
    requires AllWellFormed(geoms, dims)
    requires |AllBytes(geoms)| < SIZE_LIMIT && At(buf, at, AllBytes(geoms))
    ensures at <= |buf|
    ensures ParseMembers(buf, at, kind, |geoms|, dims) ==
            if MembersAllowed(kind, geoms) then Several(geoms, at + |AllBytes(geoms)|) else BadMember
    decreases geoms, 1
  {
    hide At, Uint32, Bytes, AllBytes, WellFormed, AllowsSubtype, SubtypesAllowed, Parse, TypeOf;
    hide MembersAllowed, AllWellFormed, ParseMembers;
    if geoms == [] {
      NoMembers(kind, geoms, buf, at);
      ParseMembersEnds(buf, at, kind, dims);
    } else {
      FirstAndRest(kind, geoms, dims);
      MembersHead(geoms, buf, at);
      TypeIsFirst(geoms[0], buf, at, dims);
      if AllowsSubtype(kind, TypeOf(geoms[0])) {
        var rest := geoms[1..];
        RoundTrip(geoms[0], dims, buf, at);
        ParseMembersNext(buf, at, kind, |geoms|, dims);
        MembersRoundTrip(kind, rest, dims, buf, at + |Bytes(geoms[0])|);
        assert [geoms[0]] + rest == geoms;
      } else {
        ParseMembersRefuses(buf, at, kind, |geoms|, dims);
      }
    }
  }

  lemma NoMembers(kind: nat, geoms: seq<Geometry>, buf: seq<byte>, at: nat)
    requires geoms == [] && At(buf, at, AllBytes(geoms))
    ensures at <= |buf| && |AllBytes(geoms)| == 0 && MembersAllowed(kind, geoms)
  {
  }
}
