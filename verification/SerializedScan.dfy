/** What holds of the serialized bytes themselves: alignment of every ordinate, and the emptiness
    scan of gserialized2_is_empty, which never builds a geometry. */
module SerializedScan {
  import opened ByteOrder
  import opened GeomTypes
  import opened Serialized

  // ----- alignment -----

  /** An ordinate and the position its eight bytes start at. */
  datatype Slot = Slot(pos: nat, value: Ordinate)

  function CoordinateSlots(p: Coordinate, at: nat): seq<Slot>
    decreases p
  {
    if p == [] then [] else [Slot(at, p[0])] + CoordinateSlots(p[1..], at + 8)
  }

  function PointsSlots(points: PointArray, at: nat): seq<Slot>
    decreases points
  {
    if points == [] then []
    else CoordinateSlots(points[0], at) + PointsSlots(points[1..], at + 8 * |points[0]|)
  }

  function RingsSlots(rings: seq<PointArray>, ord: nat): seq<Slot>
    decreases rings
  {
    if rings == [] then [] else PointsSlots(rings[0], ord) + RingsSlots(rings[1..], ord + |PointsBytes(rings[0])|)
  }

  /** All ordinates of a geometry written at at, in order. */
  function Slots(g: Geometry, at: nat): seq<Slot>
    decreases g, 0
  {
    match g
    case Polygon(rings) => RingsSlots(rings, at + 8 + 4 * |rings| + |Padding(|rings|)|)
    case Collection(_, geoms) => MemberSlots(geoms, at + 8)
    case _ => PointsSlots(g.points, at + 8)
  }

  function MemberSlots(geoms: seq<Geometry>, at: nat): seq<Slot>
    decreases geoms, 1
  {
    if geoms == [] then [] else Slots(geoms[0], at) + MemberSlots(geoms[1..], at + |Bytes(geoms[0])|)
  }

  /** The slot is aligned and holds its value. */
  ghost predicate Holds(buf: seq<byte>, s: Slot) {
    s.pos % 8 == 0 && s.pos + 8 <= |buf| && Double(buf, s.pos) == s.value
  }

  ghost predicate AllHold(buf: seq<byte>, slots: seq<Slot>) {
    forall s :: s in slots ==> Holds(buf, s)
  }

  lemma BothHold(buf: seq<byte>, s: seq<Slot>, t: seq<Slot>)
    requires AllHold(buf, s) && AllHold(buf, t)
    ensures AllHold(buf, s + t)
  {
    hide Holds;
  }

  lemma {:induction false} CoordinateHolds(p: Coordinate, at: nat, buf: seq<byte>)
    requires at % 8 == 0 && At(buf, at, CoordinateBytes(p))
    ensures AllHold(buf, CoordinateSlots(p, at))
    decreases p
  {
    if p != [] {
      AtSplit(buf, at, Little(p[0], 8), CoordinateBytes(p[1..]));
      ReadsDouble(buf, at, p[0]);
      CoordinateHolds(p[1..], at + 8, buf);
      BothHold(buf, [Slot(at, p[0])], CoordinateSlots(p[1..], at + 8));
    }
  }

  lemma {:induction false} PointsHold(points: PointArray, at: nat, buf: seq<byte>)
    requires at % 8 == 0 && At(buf, at, PointsBytes(points))
    ensures AllHold(buf, PointsSlots(points, at)) && |PointsBytes(points)| % 8 == 0
    decreases points
  {
    hide CoordinateBytes, CoordinateSlots, At, AllHold;
    if points == [] {
      NoSlots(buf);
    } else {
      AtSplit(buf, at, CoordinateBytes(points[0]), PointsBytes(points[1..]));
      CoordinateHolds(points[0], at, buf);
      PointsHold(points[1..], at + 8 * |points[0]|, buf);
      BothHold(buf, CoordinateSlots(points[0], at), PointsSlots(points[1..], at + 8 * |points[0]|));
    }
  }

  lemma NoSlots(buf: seq<byte>)
    ensures AllHold(buf, [])
  {
  }

  lemma {:induction false} RingsHold(rings: seq<PointArray>, ord: nat, buf: seq<byte>)
    requires ord % 8 == 0 && At(buf, ord, RingsBytes(rings))
    ensures AllHold(buf, RingsSlots(rings, ord)) && |RingsBytes(rings)| % 8 == 0
    decreases rings
  {
    hide PointsBytes, PointsSlots, At, AllHold;
    if rings == [] {
      NoSlots(buf);
    } else {
      AtSplit(buf, ord, PointsBytes(rings[0]), RingsBytes(rings[1..]));
      PointsHold(rings[0], ord, buf);
      RingsHold(rings[1..], ord + |PointsBytes(rings[0])|, buf);
      BothHold(buf, PointsSlots(rings[0], ord), RingsSlots(rings[1..], ord + |PointsBytes(rings[0])|));
    }
  }

  lemma PaddedCounts(n: nat)
    ensures (4 * n + |Padding(n)|) % 8 == 0
  {
  }

  /** From an aligned start every ordinate stands at a multiple of eight, and so does the end. */
  lemma {:induction false} OrdinatesAligned(g: Geometry, at: nat, buf: seq<byte>)
    requires at % 8 == 0 && At(buf, at, Bytes(g))
    ensures AllHold(buf, Slots(g, at)) && |Bytes(g)| % 8 == 0
    decreases g, 0
  {
    if g.Collection? {
      hide At, AllHold, Bytes, MemberSlots;
      CollectionHead(g.kind, g.geoms, buf, at);
      MembersAligned(g.geoms, at + 8, buf);
    } else if g.Polygon? {
      PolygonAligned(g.rings, at, buf);
    } else {
      SimpleAligned(g, at, buf);
    }
  }

  lemma PolygonAligned(rings: seq<PointArray>, at: nat, buf: seq<byte>)
    requires at % 8 == 0 && At(buf, at, Bytes(Polygon(rings)))
    ensures AllHold(buf, Slots(Polygon(rings), at)) && |Bytes(Polygon(rings))| % 8 == 0
  {
    hide At, AllHold, Bytes, RingsBytes, RingsSlots, Padding;
    PolygonHead(rings, buf, at);
    PaddedCounts(|rings|);
    var counts := 4 * |rings| + |Padding(|rings|)|;
    Aligned(at, counts);
    RingsHold(rings, at + 8 + counts, buf);
    Aligned(counts, |RingsBytes(rings)|);
    PolygonLengthIs(rings, counts);
  }

  lemma Aligned(a: int, b: int)
    requires a % 8 == 0 && b % 8 == 0
    ensures (a + 8 + b) % 8 == 0
  {
  }

  lemma PolygonLengthIs(rings: seq<PointArray>, counts: nat)
    requires counts == 4 * |rings| + |Padding(|rings|)|
    ensures |Bytes(Polygon(rings))| == counts + 8 + |RingsBytes(rings)|
  {
    hide RingsBytes, Padding, RingCounts;
  }

  lemma SimpleAligned(g: Geometry, at: nat, buf: seq<byte>)
    requires !g.Polygon? && !g.Collection? && at % 8 == 0 && At(buf, at, Bytes(g))
    ensures AllHold(buf, Slots(g, at)) && |Bytes(g)| % 8 == 0
  {
    hide At, AllHold, Bytes, PointsBytes, PointsSlots;
    SimpleHead(g, buf, at);
    PointsHold(g.points, at + 8, buf);
  }

  lemma {:induction false} MembersAligned(geoms: seq<Geometry>, at: nat, buf: seq<byte>)
    requires at % 8 == 0 && At(buf, at, AllBytes(geoms))
    ensures AllHold(buf, MemberSlots(geoms, at)) && |AllBytes(geoms)| % 8 == 0
    decreases geoms, 1
  {
    hide At, AllHold, Bytes, Slots;
    if geoms == [] {
      NoSlots(buf);
    } else {
      MembersHead(geoms, buf, at);
      OrdinatesAligned(geoms[0], at, buf);
      MembersAligned(geoms[1..], at + |Bytes(geoms[0])|, buf);
      BothHold(buf, Slots(geoms[0], at), MemberSlots(geoms[1..], at + |Bytes(geoms[0])|));
    }
  }

  // ----- emptiness -----

  /** Every point array and every polygon has count zero. */
  ghost predicate LeavesEmpty(g: Geometry) {
    match g
    case Polygon(rings) => rings == []
    case Collection(_, geoms) => forall i :: 0 <= i < |geoms| ==> LeavesEmpty(geoms[i])
    case _ => g.points == []
  }

  /** lwgeom_is_empty: a polygon without a point in its outer ring counts as empty. */
  predicate IsEmpty(g: Geometry) {
    match g
    case Polygon(rings) => |rings| < 1 || |rings[0]| < 1
    case Collection(_, geoms) => forall i :: 0 <= i < |geoms| ==> IsEmpty(geoms[i])
    case _ => |g.points| < 1
  }

  /** No polygon has rings but no point in its outer ring. */
  ghost predicate NoHollowPolygon(g: Geometry) {
    match g
    case Polygon(rings) => rings != [] ==> rings[0] != []
    case Collection(_, geoms) => forall i :: 0 <= i < |geoms| ==> NoHollowPolygon(geoms[i])
    case _ => true
  }

  /** The scan of the bytes and lwgeom_is_empty differ exactly on hollow polygons. */
  lemma {:induction false} EmptyTwice(g: Geometry)
    ensures LeavesEmpty(g) <==> IsEmpty(g) && NoHollowPolygon(g)
  {
    if g.Collection? {
      forall i | 0 <= i < |g.geoms|
        ensures LeavesEmpty(g.geoms[i]) <==> IsEmpty(g.geoms[i]) && NoHollowPolygon(g.geoms[i])
      {
        EmptyTwice(g.geoms[i]);
      }
    }
  }

  /** A polygon whose only ring has no points is empty in memory but not to the scan of its bytes. */
  lemma HollowPolygon()
    ensures var g := Polygon([[]]); WellFormed(g, 2) && IsEmpty(g) && !LeavesEmpty(g)
  {
    assert Polygon([[]]).rings != [];
  }

  function Signed(v: nat): int
    requires v < 0x1_0000_0000
  {
    if v < 0x8000_0000 then v else v - 0x1_0000_0000
  }

  lemma HeadOf(g: Geometry, dims: nat, buf: seq<byte>, p: nat)
    requires WellFormed(g, dims) && |Bytes(g)| < SIZE_LIMIT && At(buf, p, Bytes(g))
    ensures p + 8 <= |buf| && Uint32(buf, p) == TypeOf(g) && Signed(Uint32(buf, p + 4)) == Count(g)
  {
    hide Uint32, At, PointsBytes, Head;
    if g.Collection? {
      CollectionHead(g.kind, g.geoms, buf, p);
    } else if g.Polygon? {
      PolygonHead(g.rings, buf, p);
    } else {
      SimpleHead(g, buf, p);
      FewPoints(g.points, dims);
    }
    ReadsHead(buf, p, TypeOf(g), Count(g));
  }

  /** The first i members are empty. */
  ghost predicate EmptyUpTo(geoms: seq<Geometry>, i: int) {
    forall k :: 0 <= k < i && k < |geoms| ==> LeavesEmpty(geoms[k])
  }

  lemma EmptyNext(geoms: seq<Geometry>, i: int)
    requires 0 <= i < |geoms|
    ensures EmptyUpTo(geoms, i + 1) <==> EmptyUpTo(geoms, i) && LeavesEmpty(geoms[i])
    ensures EmptyUpTo(geoms, |geoms|) ==> LeavesEmpty(geoms[i])
  {
    hide LeavesEmpty;
  }

  lemma CollectionEmpty(g: Geometry)
    requires g.Collection?
    ensures LeavesEmpty(g) <==> EmptyUpTo(g.geoms, |g.geoms|)
  {
  }

  lemma SkipMembers(geoms: seq<Geometry>, i: nat, buf: seq<byte>, p: nat)
    requires i < |geoms| && At(buf, p, AllBytes(geoms[i..]))
    ensures At(buf, p, Bytes(geoms[i])) && At(buf, p + |Bytes(geoms[i])|, AllBytes(geoms[i + 1..]))
    ensures |AllBytes(geoms[i..])| == |Bytes(geoms[i])| + |AllBytes(geoms[i + 1..])|
  {
    hide At, AllBytes, Bytes;
    assert geoms[i..][1..] == geoms[i + 1..];
    MembersHead(geoms[i..], buf, p);
  }

  /** gserialized2_is_empty_recurse on the bytes of g: the answer is whether all leaves of g have
      count zero, and then the size returned is the size of g. The sizes returned for polygons and
      point arrays are those of empty ones only, but the scan stops at the first other one. */
  method IsEmptyRecurse(buf: seq<byte>, p: nat, ghost g: Geometry, ghost dims: nat) returns (lz: nat, isempty: bool)
    requires WellFormed(g, dims) && |Bytes(g)| < SIZE_LIMIT && At(buf, p, Bytes(g))
    ensures isempty <==> LeavesEmpty(g)
    ensures isempty ==> lz == |Bytes(g)|
    decreases g
  {
    hide At, Uint32, Bytes, AllBytes, LeavesEmpty, EmptyUpTo, WellFormed;
    HeadOf(g, dims, buf, p);
    var kind := Uint32(buf, p);
    var num := Signed(Uint32(buf, p + 4));
    KindSeparates(g, dims);
    if IsCollectionType(kind) {
      lz := 8;
      isempty := true;
      CollectionStarts(g, buf, p);
      var i := 0;
      while i < num
        invariant 0 <= i <= num && At(buf, p + lz, AllBytes(g.geoms[i..]))
        invariant lz + |AllBytes(g.geoms[i..])| == |Bytes(g)| && EmptyUpTo(g.geoms, i)
      {
        SkipMembers(g.geoms, i, buf, p + lz);
        EmptyNext(g.geoms, i);
        MemberFits(g, i, dims);
        var sub: nat;
        sub, isempty := IsEmptyRecurse(buf, p + lz, g.geoms[i], dims);
        lz := lz + sub;
        if !isempty {
          CollectionEmpty(g);
          return;
        }
        i := i + 1;
      }
      isempty := true;
      CollectionEmpty(g);
      NoBytes(g.geoms);
    } else {
      isempty := num == 0;
      lz := 8;
      LeafEmpty(g);
    }
  }

  lemma KindSeparates(g: Geometry, dims: nat)
    requires WellFormed(g, dims)
    ensures IsCollectionType(TypeOf(g)) <==> g.Collection?
  {
  }

  lemma LeafEmpty(g: Geometry)
    requires !g.Collection?
    ensures LeavesEmpty(g) <==> Count(g) == 0
    ensures LeavesEmpty(g) ==> |Bytes(g)| == 8
  {
  }

  lemma CollectionStarts(g: Geometry, buf: seq<byte>, p: nat)
    requires g.Collection? && At(buf, p, Bytes(g))
    ensures g.geoms[0..] == g.geoms && At(buf, p + 8, AllBytes(g.geoms[0..])) && EmptyUpTo(g.geoms, 0)
    ensures 8 + |AllBytes(g.geoms[0..])| == |Bytes(g)|
  {
    hide At, Bytes, AllBytes;
    assert g.geoms[0..] == g.geoms;
    CollectionHead(g.kind, g.geoms, buf, p);
  }

  lemma MemberFits(g: Geometry, i: nat, dims: nat)
    requires WellFormed(g, dims) && g.Collection? && i < |g.geoms|
    ensures WellFormed(g.geoms[i], dims) && g.geoms[i] < g
  {
  }

  lemma NoBytes(geoms: seq<Geometry>)
    ensures AllBytes(geoms[|geoms|..]) == []
  {
  }
}
