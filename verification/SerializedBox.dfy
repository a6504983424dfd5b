/** Boxes of serialized geometries: the cartesian box calculation of liblwgeom/gbox.c and the fast
    path of gserialized2_peek_gbox_p, which reads the box off the bytes. */
module SerializedBox {
  import opened FloatRange
  import opened ArcBox
  import opened ByteOrder
  import opened GeomTypes
  import opened Serialized
  import opened SerializedCode

  /** The real number behind an ordinate, the two roundings to float, and the square root. */
  datatype Floats = Floats(num: Ordinate -> real, down: real -> real, up: real -> real, sqrt: real -> real)

  datatype Range = Range(min: real, max: real)

  function FpMin(a: real, b: real): real {
    if a < b then a else b
  }

  function FpMax(a: real, b: real): real {
    if a > b then a else b
  }

  function Lowest(vals: seq<real>): real
    requires vals != []
  {
    var n := |vals| - 1;
    if n == 0 then vals[0] else FpMin(Lowest(vals[..n]), vals[n])
  }

  function Highest(vals: seq<real>): real
    requires vals != []
  {
    var n := |vals| - 1;
    if n == 0 then vals[0] else FpMax(Highest(vals[..n]), vals[n])
  }

  /** The two are the bounds of the values, and both are attained. */
  lemma {:induction false} TightBounds(vals: seq<real>)
    requires vals != []
    ensures forall v :: v in vals ==> Lowest(vals) <= v <= Highest(vals)
    ensures Lowest(vals) in vals && Highest(vals) in vals
  {
    var n := |vals| - 1;
    if 0 < n {
      TightBounds(vals[..n]);
      forall v | v in vals ensures Lowest(vals) <= v <= Highest(vals) {
        assert v in vals[..n] || v == vals[n];
      }
    }
  }

  ghost predicate Wide(verts: seq<Coordinate>, dims: nat) {
    forall i :: 0 <= i < |verts| ==> |verts[i]| == dims
  }

  /** The values of the vertices in one dimension. */
  function Column(fl: Floats, verts: seq<Coordinate>, d: nat): (r: seq<real>)
    requires forall i :: 0 <= i < |verts| ==> d < |verts[i]|
    ensures |r| == |verts| && forall i :: 0 <= i < |verts| ==> r[i] == fl.num(verts[i][d])
  {
    seq(|verts|, i requires 0 <= i < |verts| => fl.num(verts[i][d]))
  }

  function RangeOf(fl: Floats, verts: seq<Coordinate>, d: nat): Range
    requires verts != [] && forall i :: 0 <= i < |verts| ==> d < |verts[i]|
  {
    Range(Lowest(Column(fl, verts, d)), Highest(Column(fl, verts, d)))
  }

  /** The smallest box around the vertices. */
  ghost function BoxOf(fl: Floats, verts: seq<Coordinate>, dims: nat): (r: seq<Range>)
    requires verts != [] && Wide(verts, dims)
  {
    seq(dims, d requires 0 <= d < dims => RangeOf(fl, verts, d))
  }

  /** Every vertex lies in the box, and every face of it touches a vertex. */
  lemma BoxIsSmallest(fl: Floats, verts: seq<Coordinate>, dims: nat, d: nat)
    requires verts != [] && Wide(verts, dims) && d < dims
    ensures forall v :: v in verts ==> BoxOf(fl, verts, dims)[d].min <= fl.num(v[d]) <= BoxOf(fl, verts, dims)[d].max
    ensures exists v :: v in verts && fl.num(v[d]) == BoxOf(fl, verts, dims)[d].min
    ensures exists v :: v in verts && fl.num(v[d]) == BoxOf(fl, verts, dims)[d].max
  {
    hide Lowest, Highest;
    var col := Column(fl, verts, d);
    TightBounds(col);
    var i :| 0 <= i < |col| && col[i] == Lowest(col);
    assert verts[i] in verts;
    var j :| 0 <= j < |col| && col[j] == Highest(col);
    assert verts[j] in verts;
    forall v | v in verts ensures Lowest(col) <= fl.num(v[d]) <= Highest(col) {
      var k :| 0 <= k < |verts| && verts[k] == v;
      assert col[k] in col;
    }
  }

  function Dims(z: bool, m: bool): (n: nat)
    ensures 2 <= n <= 4
  {
    2 + (if z then 1 else 0) + (if m then 1 else 0)
  }

  ghost function Rounded(fl: Floats, box: seq<Range>): (r: seq<Range>)
    ensures |r| == |box|
  {
    seq(|box|, d requires 0 <= d < |box| => Range(fl.down(box[d].min), fl.up(box[d].max)))
  }

  function Joined(a: Range, b: Range): Range {
    Range(FpMin(a.min, b.min), FpMax(a.max, b.max))
  }

  lemma RangeOfFirst(fl: Floats, verts: seq<Coordinate>, d: nat)
    requires verts != [] && forall i :: 0 <= i < |verts| ==> d < |verts[i]|
    ensures RangeOf(fl, verts[..1], d) == Range(fl.num(verts[0][d]), fl.num(verts[0][d]))
  {
  }

  lemma RangeOfNext(fl: Floats, verts: seq<Coordinate>, k: nat, d: nat)
    requires 0 < k < |verts| && forall i :: 0 <= i < |verts| ==> d < |verts[i]|
    ensures var v := fl.num(verts[k][d]);
            RangeOf(fl, verts[..k + 1], d) == Joined(RangeOf(fl, verts[..k], d), Range(v, v))
  {
    assert Column(fl, verts[..k + 1], d)[..k] == Column(fl, verts[..k], d);
  }

  lemma {:induction false} LowestOfBoth(a: seq<real>, b: seq<real>)
    requires a != [] && b != []
    ensures Lowest(a + b) == FpMin(Lowest(a), Lowest(b)) && Highest(a + b) == FpMax(Highest(a), Highest(b))
    decreases b
  {
    var n := |b| - 1;
    assert (a + b)[..|a| + n] == a + b[..n];
    if n == 0 {
      assert a + b[..n] == a;
    } else {
      LowestOfBoth(a, b[..n]);
    }
  }

  /** A GBOX of the cartesian kind; the ranges of dimensions it does not have are left as they are. */
  class Box {
    var hasZ: bool
    var hasM: bool
    var x: Range
    var y: Range
    var z: Range
    var m: Range

    constructor ()
      ensures !hasZ && !hasM && x == y == z == m == Range(0.0, 0.0)
    {
      hasZ, hasM := false, false;
      var nil := Range(0.0, 0.0);
      x, y, z, m := nil, nil, nil, nil;
    }

    /** The ranges of the declared dimensions, in the order of the ordinates. */
    function Contents(): (r: seq<Range>)
      reads this
    {
      [x, y] + (if hasZ then [z] else []) + (if hasM then [m] else [])
    }

    ghost predicate Shows(fl: Floats, verts: seq<Coordinate>, withZ: bool, withM: bool)
      requires verts != [] && Wide(verts, Dims(withZ, withM))
      reads this
    {
      hasZ == withZ && hasM == withM && Contents() == BoxOf(fl, verts, Dims(withZ, withM))
    }

    method Calculate2d(fl: Floats, points: PointArray)
      requires points != [] && forall i :: 0 <= i < |points| ==> 2 <= |points[i]|
      modifies this
      ensures x == RangeOf(fl, points, 0) && y == RangeOf(fl, points, 1)
      ensures z == old(z) && m == old(m) && hasZ == old(hasZ) && hasM == old(hasM)
    {
      hide Lowest, Highest, Column, RangeOf;
      var p := points[0];
      x := Range(fl.num(p[0]), fl.num(p[0]));
      y := Range(fl.num(p[1]), fl.num(p[1]));
      RangeOfFirst(fl, points, 0);
      RangeOfFirst(fl, points, 1);
      for i := 1 to |points|
        invariant x == RangeOf(fl, points[..i], 0) && y == RangeOf(fl, points[..i], 1)
        invariant z == old(z) && m == old(m) && hasZ == old(hasZ) && hasM == old(hasM)
      {
        RangeOfNext(fl, points, i, 0);
        RangeOfNext(fl, points, i, 1);
        p := points[i];
        x := Range(FpMin(x.min, fl.num(p[0])), FpMax(x.max, fl.num(p[0])));
        y := Range(FpMin(y.min, fl.num(p[1])), FpMax(y.max, fl.num(p[1])));
      }
      assert points[..|points|] == points;
    }

    method Calculate3d(fl: Floats, points: PointArray)
      requires points != [] && forall i :: 0 <= i < |points| ==> 3 <= |points[i]|
      modifies this
      ensures x == RangeOf(fl, points, 0) && y == RangeOf(fl, points, 1) && z == RangeOf(fl, points, 2)
      ensures m == old(m) && hasZ == old(hasZ) && hasM == old(hasM)
    {
      hide Lowest, Highest, Column, RangeOf;
      var p := points[0];
      x := Range(fl.num(p[0]), fl.num(p[0]));
      y := Range(fl.num(p[1]), fl.num(p[1]));
      z := Range(fl.num(p[2]), fl.num(p[2]));
      RangeOfFirst(fl, points, 0);
      RangeOfFirst(fl, points, 1);
      RangeOfFirst(fl, points, 2);
      for i := 1 to |points|
        invariant x == RangeOf(fl, points[..i], 0) && y == RangeOf(fl, points[..i], 1)
        invariant z == RangeOf(fl, points[..i], 2)
        invariant m == old(m) && hasZ == old(hasZ) && hasM == old(hasM)
      {
        RangeOfNext(fl, points, i, 0);
        RangeOfNext(fl, points, i, 1);
        RangeOfNext(fl, points, i, 2);
        p := points[i];
        x := Range(FpMin(x.min, fl.num(p[0])), FpMax(x.max, fl.num(p[0])));
        y := Range(FpMin(y.min, fl.num(p[1])), FpMax(y.max, fl.num(p[1])));
        z := Range(FpMin(z.min, fl.num(p[2])), FpMax(z.max, fl.num(p[2])));
      }
      assert points[..|points|] == points;
    }

    method Calculate4d(fl: Floats, points: PointArray)
      requires points != [] && forall i :: 0 <= i < |points| ==> 4 <= |points[i]|
      modifies this
      ensures x == RangeOf(fl, points, 0) && y == RangeOf(fl, points, 1) && z == RangeOf(fl, points, 2)
      ensures m == RangeOf(fl, points, 3) && hasZ == old(hasZ) && hasM == old(hasM)
    {
      hide Lowest, Highest, Column, RangeOf;
      var p := points[0];
      x := Range(fl.num(p[0]), fl.num(p[0]));
      y := Range(fl.num(p[1]), fl.num(p[1]));
      z := Range(fl.num(p[2]), fl.num(p[2]));
      m := Range(fl.num(p[3]), fl.num(p[3]));
      RangeOfFirst(fl, points, 0);
      RangeOfFirst(fl, points, 1);
      RangeOfFirst(fl, points, 2);
      RangeOfFirst(fl, points, 3);
      for i := 1 to |points|
        invariant x == RangeOf(fl, points[..i], 0) && y == RangeOf(fl, points[..i], 1)
        invariant z == RangeOf(fl, points[..i], 2)
        invariant m == RangeOf(fl, points[..i], 3) && hasZ == old(hasZ) && hasM == old(hasM)
      {
        RangeOfNext(fl, points, i, 0);
        RangeOfNext(fl, points, i, 1);
        RangeOfNext(fl, points, i, 2);
        RangeOfNext(fl, points, i, 3);
        p := points[i];
        x := Range(FpMin(x.min, fl.num(p[0])), FpMax(x.max, fl.num(p[0])));
        y := Range(FpMin(y.min, fl.num(p[1])), FpMax(y.max, fl.num(p[1])));
        z := Range(FpMin(z.min, fl.num(p[2])), FpMax(z.max, fl.num(p[2])));
        m := Range(FpMin(m.min, fl.num(p[3])), FpMax(m.max, fl.num(p[3])));
      }
      assert points[..|points|] == points;
    }

    /** ptarray_calculate_gbox_cartesian; x, y and m go through the three-dimensional loop, with m in
        the place of z. */
    method Calculate(fl: Floats, points: PointArray, withZ: bool, withM: bool) returns (ok: bool)
      requires Uniform(points, Dims(withZ, withM))
      modifies this
      ensures ok <==> points != []
      ensures ok ==> Shows(fl, points, withZ, withM)
      ensures !ok ==> unchanged(this)
    {
      hide RangeOf;
      if |points| == 0 { return false; }
      hasZ, hasM := withZ, withM;
      if !withZ && !withM {
        Calculate2d(fl, points);
      } else if withZ && withM {
        Calculate4d(fl, points);
      } else if withZ {
        Calculate3d(fl, points);
      } else {
        var keep := z;
        Calculate3d(fl, points);
        m := z;
        z := keep;
      }
      return true;
    }

    /** lw_arc_calculate_gbox_cartesian: heights and measures are those of the ends. */
    method SetArc(fl: Floats, p1: Coordinate, p2: Coordinate, p3: Coordinate)
      requires |p1| == |p2| == |p3| == Dims(hasZ, hasM)
      modifies this
      ensures hasZ == old(hasZ) && hasM == old(hasM) && Contents() == ArcSpan(fl, p1, p2, p3)
    {
      hide ArcBounds;
      var b := ArcBounds(fl.sqrt, Plane(fl, p1), Plane(fl, p2), Plane(fl, p3));
      x, y := Range(b.xmin, b.xmax), Range(b.ymin, b.ymax);
      if hasZ { z := EndsRange(fl, p1, p3, 2); }
      if hasM { m := EndsRange(fl, p1, p3, if hasZ then 3 else 2); }
    }

    /** gbox_merge for cartesian boxes. */
    method Merge(other: Box) returns (ok: bool)
      requires other != this
      modifies this
      ensures ok <==> old(hasZ) == other.hasZ && old(hasM) == other.hasM
      ensures hasZ == old(hasZ) && hasM == old(hasM)
      ensures ok ==> |other.Contents()| == |old(Contents())| == |Contents()|
      ensures ok ==> forall d :: 0 <= d < |Contents()| ==>
                Contents()[d] == Joined(old(Contents())[d], other.Contents()[d])
    {
      if hasZ != other.hasZ || hasM != other.hasM { return false; }
      x := Widen(x, other.x);
      y := Widen(y, other.y);
      if hasZ { z := Widen(z, other.z); }
      if hasM { m := Widen(m, other.m); }
      return true;
    }

    ghost predicate ShowsHull(spans: seq<Span>, withZ: bool, withM: bool)
      requires spans != [] && WideSpans(spans, Dims(withZ, withM))
      reads this
    {
      hasZ == withZ && hasM == withM && Contents() == Hull(spans, Dims(withZ, withM))
    }

    /** gbox_duplicate. */
    method Duplicate(other: Box)
      modifies this
      ensures hasZ == other.hasZ && hasM == other.hasM && x == other.x && y == other.y && z == other.z && m == other.m
    {
      hasZ, hasM, x, y, z, m := other.hasZ, other.hasM, other.x, other.y, other.z, other.m;
    }

    method FloatRound(fl: Floats)
      modifies this
      ensures hasZ == old(hasZ) && hasM == old(hasM) && Contents() == Rounded(fl, old(Contents()))
    {
      x := Range(fl.down(x.min), fl.up(x.max));
      y := Range(fl.down(y.min), fl.up(y.max));
      if hasM { m := Range(fl.down(m.min), fl.up(m.max)); }
      if hasZ { z := Range(fl.down(z.min), fl.up(z.max)); }
    }
  }

  /** if (new < merged) merged = new, for both ends. */
  function Widen(r: Range, s: Range): (w: Range)
    ensures w == Joined(r, s)
  {
    Range(if s.min < r.min then s.min else r.min, if s.max > r.max then s.max else r.max)
  }

  // ----- the box of a geometry -----

  /** The vertices that make the box: of a polygon those of the outer ring. */
  function BoxVertices(g: Geometry): seq<Coordinate>
    decreases g, 0
  {
    match g
    case Polygon(rings) => if rings == [] then [] else rings[0]
    case Collection(_, geoms) => AllVertices(geoms)
    case _ => g.points
  }

  function AllVertices(geoms: seq<Geometry>): seq<Coordinate>
    decreases geoms, 1
  {
    if geoms == [] then []
    else AllVertices(geoms[..|geoms| - 1]) + BoxVertices(geoms[|geoms| - 1])
  }

  // ----- vertices and arcs -----

  /** The ranges that a vertex or an arc takes up in every dimension. */
  type Span = seq<Range>

  ghost predicate WideSpans(spans: seq<Span>, dims: nat) {
    forall i :: 0 <= i < |spans| ==> |spans[i]| == dims
  }

  function VertexSpan(fl: Floats, p: Coordinate): (s: Span)
    ensures |s| == |p|
  {
    seq(|p|, d requires 0 <= d < |p| => Range(fl.num(p[d]), fl.num(p[d])))
  }

  function VertexSpans(fl: Floats, points: PointArray): (s: seq<Span>)
    ensures |s| == |points|
  {
    seq(|points|, i requires 0 <= i < |points| => VertexSpan(fl, points[i]))
  }

  function Plane(fl: Floats, p: Coordinate): Point2
    requires 2 <= |p|
  {
    Point2(fl.num(p[0]), fl.num(p[1]))
  }

  function EndsRange(fl: Floats, p1: Coordinate, p3: Coordinate, d: nat): Range
    requires d < |p1| && d < |p3|
  {
    Range(FpMin(fl.num(p1[d]), fl.num(p3[d])), FpMax(fl.num(p1[d]), fl.num(p3[d])))
  }

  function ArcSpan(fl: Floats, p1: Coordinate, p2: Coordinate, p3: Coordinate): (s: Span)
    requires 2 <= |p1| == |p2| == |p3|
    ensures |s| == |p1|
  {
    var b := ArcBounds(fl.sqrt, Plane(fl, p1), Plane(fl, p2), Plane(fl, p3));
    [Range(b.xmin, b.xmax), Range(b.ymin, b.ymax)]
    + seq(|p1| - 2, d requires 0 <= d < |p1| - 2 => EndsRange(fl, p1, p3, d + 2))
  }

  /** The first k arcs of a circular string. */
  function ArcSpans(fl: Floats, points: PointArray, k: nat, dims: nat): (s: seq<Span>)
    requires Uniform(points, dims) && 2 <= dims && (k == 0 || 2 * k < |points|)
    ensures |s| == k && WideSpans(s, dims)
  {
    if k == 0 then []
    else ArcSpans(fl, points, k - 1, dims) + [ArcSpan(fl, points[2 * k - 2], points[2 * k - 1], points[2 * k])]
  }

  /** The box before the first arc. */
  function NilSpan(dims: nat): (s: Span)
    ensures |s| == dims
  {
    seq(dims, _ => Range(FLT_MAX, -FLT_MAX))
  }

  function StringSpans(fl: Floats, points: PointArray, dims: nat): (s: seq<Span>)
    requires Uniform(points, dims) && 2 <= dims
    ensures WideSpans(s, dims)
  {
    if |points| < 3 then [] else [NilSpan(dims)] + ArcSpans(fl, points, (|points| - 1) / 2, dims)
  }

  /** What makes the box of a geometry: vertices, of a polygon those of the outer ring, and arcs. */
  function BoxSpans(fl: Floats, g: Geometry, dims: nat): (s: seq<Span>)
    requires WellFormed(g, dims)
    ensures WideSpans(s, dims)
    decreases g, 0
  {
    match g
    case Polygon(rings) => if rings == [] then [] else VertexSpans(fl, rings[0])
    case CircString(points) => StringSpans(fl, points, dims)
    case Collection(_, geoms) => AllSpans(fl, geoms, dims)
    case _ => VertexSpans(fl, g.points)
  }

  function AllSpans(fl: Floats, geoms: seq<Geometry>, dims: nat): (s: seq<Span>)
    requires forall i :: 0 <= i < |geoms| ==> WellFormed(geoms[i], dims)
    ensures WideSpans(s, dims)
    decreases geoms, 1
  {
    if geoms == [] then []
    else AllSpans(fl, geoms[..|geoms| - 1], dims) + BoxSpans(fl, geoms[|geoms| - 1], dims)
  }

  function Mins(spans: seq<Span>, d: nat): (r: seq<real>)
    requires forall i :: 0 <= i < |spans| ==> d < |spans[i]|
    ensures |r| == |spans| && forall i :: 0 <= i < |spans| ==> r[i] == spans[i][d].min
  {
    seq(|spans|, i requires 0 <= i < |spans| => spans[i][d].min)
  }

  function Maxs(spans: seq<Span>, d: nat): (r: seq<real>)
    requires forall i :: 0 <= i < |spans| ==> d < |spans[i]|
    ensures |r| == |spans| && forall i :: 0 <= i < |spans| ==> r[i] == spans[i][d].max
  {
    seq(|spans|, i requires 0 <= i < |spans| => spans[i][d].max)
  }

  function HullRange(spans: seq<Span>, d: nat): Range
    requires spans != [] && forall i :: 0 <= i < |spans| ==> d < |spans[i]|
  {
    Range(Lowest(Mins(spans, d)), Highest(Maxs(spans, d)))
  }

  /** The smallest box around the spans. */
  ghost function Hull(spans: seq<Span>, dims: nat): (r: seq<Range>)
    requires spans != [] && WideSpans(spans, dims)
    ensures |r| == dims
  {
    seq(dims, d requires 0 <= d < dims => HullRange(spans, d))
  }

  /** Every span lies in the hull, and every face of it touches one. */
  lemma HullIsSmallest(spans: seq<Span>, dims: nat, d: nat)
    requires spans != [] && WideSpans(spans, dims) && d < dims
    ensures forall s: Span :: s in spans ==>
              Hull(spans, dims)[d].min <= s[d].min && s[d].max <= Hull(spans, dims)[d].max
    ensures exists s: Span :: s in spans && s[d].min == Hull(spans, dims)[d].min
    ensures exists s: Span :: s in spans && s[d].max == Hull(spans, dims)[d].max
  {
    hide Lowest, Highest;
    var lo, hi := Mins(spans, d), Maxs(spans, d);
    TightBounds(lo);
    TightBounds(hi);
    var i :| 0 <= i < |lo| && lo[i] == Lowest(lo);
    assert spans[i] in spans;
    var j :| 0 <= j < |hi| && hi[j] == Highest(hi);
    assert spans[j] in spans;
    forall s: Span | s in spans ensures Lowest(lo) <= s[d].min && s[d].max <= Highest(hi) {
      var k :| 0 <= k < |spans| && spans[k] == s;
      assert lo[k] in lo && hi[k] in hi;
    }
  }

  lemma HullOfOne(s: Span, dims: nat)
    requires |s| == dims
    ensures Hull([s], dims) == s
  {
    assert forall d :: 0 <= d < dims ==> HullRange([s], d) == s[d];
  }

  lemma HullOfVertices(fl: Floats, points: PointArray, dims: nat)
    requires points != [] && Wide(points, dims)
    ensures WideSpans(VertexSpans(fl, points), dims) && Hull(VertexSpans(fl, points), dims) == BoxOf(fl, points, dims)
  {
    hide Lowest, Highest;
    var spans := VertexSpans(fl, points);
    forall d | 0 <= d < dims ensures HullRange(spans, d) == RangeOf(fl, points, d) {
      assert Mins(spans, d) == Column(fl, points, d) == Maxs(spans, d);
    }
  }

  lemma HullOfBoth(v: seq<Span>, w: seq<Span>, dims: nat)
    requires v != [] && w != [] && WideSpans(v, dims) && WideSpans(w, dims)
    ensures WideSpans(v + w, dims)
    ensures forall d :: 0 <= d < dims ==> Hull(v + w, dims)[d] == Joined(Hull(v, dims)[d], Hull(w, dims)[d])
  {
    hide Lowest, Highest;
    forall d | 0 <= d < dims ensures HullRange(v + w, d) == Joined(HullRange(v, d), HullRange(w, d)) {
      assert Mins(v + w, d) == Mins(v, d) + Mins(w, d) && Maxs(v + w, d) == Maxs(v, d) + Maxs(w, d);
      LowestOfBoth(Mins(v, d), Mins(w, d));
      LowestOfBoth(Maxs(v, d), Maxs(w, d));
    }
  }

  /** Joining boxes of spans shows the spans of both. */
  lemma JoinShows(v: seq<Span>, w: seq<Span>, dims: nat, r: seq<Range>)
    requires v != [] && w != [] && WideSpans(v, dims) && WideSpans(w, dims) && |r| == dims
    requires forall d :: 0 <= d < dims ==> r[d] == Joined(Hull(v, dims)[d], Hull(w, dims)[d])
    ensures WideSpans(v + w, dims) && r == Hull(v + w, dims)
  {
    hide Hull, Joined;
    HullOfBoth(v, w, dims);
  }

  // ----- the start values of circular strings -----

  /** The vertices and arcs of a geometry alone. */
  function PlainSpans(fl: Floats, g: Geometry, dims: nat): (s: seq<Span>)
    requires WellFormed(g, dims)
    ensures WideSpans(s, dims)
    decreases g, 0
  {
    match g
    case CircString(points) => if |points| < 3 then [] else ArcSpans(fl, points, (|points| - 1) / 2, dims)
    case Collection(_, geoms) => AllPlainSpans(fl, geoms, dims)
    case _ => BoxSpans(fl, g, dims)
  }

  function AllPlainSpans(fl: Floats, geoms: seq<Geometry>, dims: nat): (s: seq<Span>)
    requires forall i :: 0 <= i < |geoms| ==> WellFormed(geoms[i], dims)
    ensures WideSpans(s, dims)
    decreases geoms, 1
  {
    if geoms == [] then []
    else AllPlainSpans(fl, geoms[..|geoms| - 1], dims) + PlainSpans(fl, geoms[|geoms| - 1], dims)
  }

  /** The spans are the plain ones and, among them, boxes before a first arc. */
  ghost predicate AddsNil(spans: seq<Span>, plain: seq<Span>, dims: nat) {
    && (spans == [] <==> plain == [])
    && (forall s: Span :: s in plain ==> s in spans)
    && (forall s: Span :: s in spans ==> s in plain || s == NilSpan(dims))
  }

  lemma AddsNilBoth(s: seq<Span>, p: seq<Span>, s': seq<Span>, p': seq<Span>, dims: nat)
    requires AddsNil(s, p, dims) && AddsNil(s', p', dims)
    ensures AddsNil(s + s', p + p', dims)
  {
    hide NilSpan;
  }

  lemma {:induction false} PlainAddsNil(fl: Floats, g: Geometry, dims: nat)
    requires WellFormed(g, dims)
    ensures AddsNil(BoxSpans(fl, g, dims), PlainSpans(fl, g, dims), dims)
    decreases g, 0
  {
    hide NilSpan, ArcSpan, VertexSpans;
    if g.Collection? { AllPlainAddNil(fl, g.geoms, dims); }
  }

  lemma {:induction false} AllPlainAddNil(fl: Floats, geoms: seq<Geometry>, dims: nat)
    requires forall i :: 0 <= i < |geoms| ==> WellFormed(geoms[i], dims)
    ensures AddsNil(AllSpans(fl, geoms, dims), AllPlainSpans(fl, geoms, dims), dims)
    decreases geoms, 1
  {
    if geoms != [] {
      hide WellFormed, BoxSpans, PlainSpans, AddsNil;
      var n := |geoms| - 1;
      AllPlainAddNil(fl, geoms[..n], dims);
      PlainAddsNil(fl, geoms[n], dims);
      AddsNilBoth(AllSpans(fl, geoms[..n], dims), AllPlainSpans(fl, geoms[..n], dims),
                  BoxSpans(fl, geoms[n], dims), PlainSpans(fl, geoms[n], dims), dims);
    }
  }

  ghost predicate WithinFloats(spans: seq<Span>, dims: nat)
    requires WideSpans(spans, dims)
  {
    forall i, d :: 0 <= i < |spans| && 0 <= d < dims ==> spans[i][d].min <= FLT_MAX && -FLT_MAX <= spans[i][d].max
  }

  lemma SameHullRange(spans: seq<Span>, plain: seq<Span>, dims: nat, d: nat)
    requires WideSpans(spans, dims) && WideSpans(plain, dims) && AddsNil(spans, plain, dims)
    requires plain != [] && spans != [] && WithinFloats(plain, dims) && d < dims
    ensures Hull(spans, dims)[d] == Hull(plain, dims)[d]
  {
    hide Hull;
    HullIsSmallest(spans, dims, d);
    HullIsSmallest(plain, dims, d);
    var s: Span :| s in spans && s[d].min == Hull(spans, dims)[d].min;
    var t: Span :| t in spans && t[d].max == Hull(spans, dims)[d].max;
    var p: Span :| p in plain && p[d].min == Hull(plain, dims)[d].min;
    var q: Span :| q in plain && q[d].max == Hull(plain, dims)[d].max;
    assert NilSpan(dims)[d] == Range(FLT_MAX, -FLT_MAX);
  }

  /** As long as everything lies within the floats, the boxes before first arcs leave no trace, wherever
      in the geometry they stand. */
  lemma NilLeavesNoTrace(fl: Floats, g: Geometry, dims: nat)
    requires WellFormed(g, dims) && WithinFloats(PlainSpans(fl, g, dims), dims)
    ensures BoxSpans(fl, g, dims) == [] <==> PlainSpans(fl, g, dims) == []
    ensures PlainSpans(fl, g, dims) != [] ==>
              Hull(BoxSpans(fl, g, dims), dims) == Hull(PlainSpans(fl, g, dims), dims)
  {
    PlainAddsNil(fl, g, dims);
    hide BoxSpans, PlainSpans, Hull, WellFormed;
    var spans, plain := BoxSpans(fl, g, dims), PlainSpans(fl, g, dims);
    if plain != [] {
      forall d | 0 <= d < dims ensures Hull(spans, dims)[d] == Hull(plain, dims)[d] {
        SameHullRange(spans, plain, dims, d);
      }
    }
  }

  /** In height and measure an arc takes up what its ends do: the middle point is within exactly when its
      value lies between theirs. */
  lemma MiddleHeight(fl: Floats, p1: Coordinate, p2: Coordinate, p3: Coordinate, d: nat)
    requires 2 <= d < |p1| == |p2| == |p3|
    ensures var r, v := ArcSpan(fl, p1, p2, p3)[d], fl.num(p2[d]);
            r.min <= v <= r.max <==> || fl.num(p1[d]) <= v <= fl.num(p3[d]) || fl.num(p3[d]) <= v <= fl.num(p1[d])
  {
    hide ArcBounds;
  }

  /** A middle point that is higher than both ends is outside the box. */
  lemma MiddleHeightIgnored(sqrt: real -> real)
    ensures var fl := Floats((o: Ordinate) => o as real, v => v, v => v, sqrt);
            var low, high := [0, 0, 0], [1, 1, 9];
            ArcSpan(fl, low, high, [2, 0, 1])[2] == Range(0.0, 1.0)
  {
    hide ArcBounds;
  }

  // ----- the calculation -----

  /** lwcircstring_calculate_gbox_cartesian, for a box whose flags are set. */
  method CalculateArcs(fl: Floats, points: PointArray, withZ: bool, withM: bool, box: Box) returns (ok: bool)
    requires Uniform(points, Dims(withZ, withM)) && box.hasZ == withZ && box.hasM == withM
    modifies box
    ensures ok <==> StringSpans(fl, points, Dims(withZ, withM)) != []
    ensures ok ==> box.ShowsHull(StringSpans(fl, points, Dims(withZ, withM)), withZ, withM)
    ensures !ok ==> unchanged(box)
  {
    hide ArcSpan, ArcSpans, Hull, Joined, NilSpan;
    if |points| < 3 { return false; }
    ghost var dims := Dims(withZ, withM);
    NoArcsYet(fl, points, dims);
    var tmp := new Box();
    tmp.hasZ, tmp.hasM := withZ, withM;
    var nil := Range(FLT_MAX, -FLT_MAX);
    box.x, box.y, box.z, box.m := nil, nil, nil, nil;
    NilBox(dims, box);
    var i := 2;
    ghost var k: nat := 0;
    while i < |points|
      invariant i == 2 * k + 2 && (k == 0 || 2 * k < |points|)
      invariant tmp.hasZ == withZ && tmp.hasM == withM && box.hasZ == withZ && box.hasM == withM
      invariant WideSpans([NilSpan(dims)] + ArcSpans(fl, points, k, dims), dims)
      invariant box.Contents() == Hull([NilSpan(dims)] + ArcSpans(fl, points, k, dims), dims)
    {
      tmp.SetArc(fl, points[i - 2], points[i - 1], points[i]);
      ghost var done, arc := [NilSpan(dims)] + ArcSpans(fl, points, k, dims), tmp.Contents();
      var _ := box.Merge(tmp);
      HullOfOne(arc, dims);
      JoinShows(done, [arc], dims, box.Contents());
      ArcsNext(fl, points, k, dims);
      i := i + 2;
      k := k + 1;
    }
    ok := true;
  }

  lemma NoArcsYet(fl: Floats, points: PointArray, dims: nat)
    requires Uniform(points, dims) && 2 <= dims
    ensures ArcSpans(fl, points, 0, dims) == [] && [NilSpan(dims)] + [] == [NilSpan(dims)]
  {
  }

  lemma NilBox(dims: nat, box: Box)
    requires dims == Dims(box.hasZ, box.hasM)
    requires box.x == box.y == box.z == box.m == Range(FLT_MAX, -FLT_MAX)
    ensures box.Contents() == Hull([NilSpan(dims)], dims)
  {
    HullOfOne(NilSpan(dims), dims);
  }

  lemma ArcsNext(fl: Floats, points: PointArray, k: nat, dims: nat)
    requires Uniform(points, dims) && 2 <= dims && 2 * k + 2 < |points|
    ensures [NilSpan(dims)] + ArcSpans(fl, points, k, dims)
              + [ArcSpan(fl, points[2 * k], points[2 * k + 1], points[2 * k + 2])]
            == [NilSpan(dims)] + ArcSpans(fl, points, k + 1, dims)
  {
    hide ArcSpan, NilSpan;
  }

  /** lwgeom_calculate_gbox_cartesian, for a box whose flags are set: succeeds when there is a vertex or
      an arc, with the smallest box; otherwise the box stays as it is. */
  method CalculateGbox(fl: Floats, g: Geometry, withZ: bool, withM: bool, box: Box) returns (ok: bool)
    requires WellFormed(g, Dims(withZ, withM)) && box.hasZ == withZ && box.hasM == withM
    modifies box
    ensures ok <==> BoxSpans(fl, g, Dims(withZ, withM)) != []
    ensures ok ==> box.ShowsHull(BoxSpans(fl, g, Dims(withZ, withM)), withZ, withM)
    ensures ok && WithinFloats(PlainSpans(fl, g, Dims(withZ, withM)), Dims(withZ, withM)) ==>
              && PlainSpans(fl, g, Dims(withZ, withM)) != []
              && box.ShowsHull(PlainSpans(fl, g, Dims(withZ, withM)), withZ, withM)
    ensures !ok ==> unchanged(box)
    decreases g, 0
  {
    hide Hull, BoxOf, PlainSpans;
    if WithinFloats(PlainSpans(fl, g, Dims(withZ, withM)), Dims(withZ, withM)) {
      NilLeavesNoTrace(fl, g, Dims(withZ, withM));
    }
    if g.Polygon? {
      if |g.rings| == 0 { return false; }
      ok := CalculatePoints(fl, g.rings[0], withZ, withM, box);
    } else if g.CircString? {
      ok := CalculateArcs(fl, g.points, withZ, withM, box);
    } else if g.Collection? {
      ok := CalculateCollection(fl, g.geoms, withZ, withM, box);
    } else {
      ok := CalculatePoints(fl, g.points, withZ, withM, box);
    }
  }

  method CalculatePoints(fl: Floats, points: PointArray, withZ: bool, withM: bool, box: Box) returns (ok: bool)
    requires Uniform(points, Dims(withZ, withM))
    modifies box
    ensures WideSpans(VertexSpans(fl, points), Dims(withZ, withM))
    ensures ok <==> VertexSpans(fl, points) != []
    ensures ok ==> box.ShowsHull(VertexSpans(fl, points), withZ, withM)
    ensures !ok ==> unchanged(box)
  {
    hide Hull, BoxOf;
    ok := box.Calculate(fl, points, withZ, withM);
    if ok { HullOfVertices(fl, points, Dims(withZ, withM)); }
  }

  lemma SpansNext(fl: Floats, geoms: seq<Geometry>, i: nat, dims: nat)
    requires i < |geoms| && forall k :: 0 <= k < |geoms| ==> WellFormed(geoms[k], dims)
    ensures AllSpans(fl, geoms[..i + 1], dims) == AllSpans(fl, geoms[..i], dims) + BoxSpans(fl, geoms[i], dims)
  {
    hide BoxSpans, WellFormed;
    assert geoms[..i + 1][..i] == geoms[..i];
  }

  /** What box shows once the spans have been merged. */
  ghost predicate ShowsSoFar(box: Box, spans: seq<Span>, withZ: bool, withM: bool)
    reads box
  {
    && WideSpans(spans, Dims(withZ, withM)) && box.hasZ == withZ && box.hasM == withM
    && (spans != [] ==> box.ShowsHull(spans, withZ, withM))
  }

  method CalculateCollection(fl: Floats, geoms: seq<Geometry>, withZ: bool, withM: bool, box: Box) returns (ok: bool)
    requires forall i :: 0 <= i < |geoms| ==> WellFormed(geoms[i], Dims(withZ, withM))
    requires box.hasZ == withZ && box.hasM == withM
    modifies box
    ensures ok <==> AllSpans(fl, geoms, Dims(withZ, withM)) != []
    ensures ShowsSoFar(box, AllSpans(fl, geoms, Dims(withZ, withM)), withZ, withM)
    ensures !ok ==> unchanged(box)
    decreases geoms, 1
  {
    hide WellFormed, BoxSpans, AllSpans, Hull;
    ghost var dims := Dims(withZ, withM);
    NoSpans(fl, geoms, dims);
    ok := false;
    if |geoms| == 0 { return; }
    var first := true;
    var subbox := new Box();
    subbox.hasZ, subbox.hasM := withZ, withM;
    for i := 0 to |geoms|
      invariant ok == !first == (AllSpans(fl, geoms[..i], dims) != [])
      invariant ShowsSoFar(box, AllSpans(fl, geoms[..i], dims), withZ, withM)
      invariant subbox.hasZ == withZ && subbox.hasM == withM && (!ok ==> unchanged(box))
    {
      SpansNext(fl, geoms, i, dims);
      ghost var done := AllSpans(fl, geoms[..i], dims);
      var sub := CalculateGbox(fl, geoms[i], withZ, withM, subbox);
      if sub {
        if first {
          box.Duplicate(subbox);
          first := false;
          assert done + BoxSpans(fl, geoms[i], dims) == BoxSpans(fl, geoms[i], dims);
        } else {
          var _ := box.Merge(subbox);
          JoinShows(done, BoxSpans(fl, geoms[i], dims), dims, box.Contents());
        }
        ok := true;
      } else {
        assert done + BoxSpans(fl, geoms[i], dims) == done;
      }
    }
    assert geoms[..|geoms|] == geoms;
  }

  lemma NoSpans(fl: Floats, geoms: seq<Geometry>, dims: nat)
    requires forall i :: 0 <= i < |geoms| ==> WellFormed(geoms[i], dims)
    ensures AllSpans(fl, geoms[..0], dims) == [] && (geoms == [] ==> AllSpans(fl, geoms, dims) == [])
  {
  }

  // ----- the fast path -----

  /** The values at a position are the ordinates of the points that stand there. */
  lemma {:induction false} OrdinateAt(p: Coordinate, at: nat, buf: seq<byte>, k: nat)
    requires At(buf, at, CoordinateBytes(p)) && k < |p|
    ensures at + 8 * k + 8 <= |buf| && Double(buf, at + 8 * k) == p[k]
    decreases p
  {
    AtSplit(buf, at, Little(p[0], 8), CoordinateBytes(p[1..]));
    if k == 0 {
      ReadsDouble(buf, at, p[0]);
    } else {
      OrdinateAt(p[1..], at + 8, buf, k - 1);
    }
  }

  lemma FirstPoint(points: PointArray, at: nat, buf: seq<byte>, dims: nat, k: nat)
    requires points != [] && Uniform(points, dims) && At(buf, at, PointsBytes(points)) && k < dims
    ensures at + 8 * k + 8 <= |buf| && Double(buf, at + 8 * k) == points[0][k]
  {
    hide CoordinateBytes, At, Double;
    AtSplit(buf, at, CoordinateBytes(points[0]), PointsBytes(points[1..]));
    OrdinateAt(points[0], at, buf, k);
  }

  lemma SecondPoint(points: PointArray, at: nat, buf: seq<byte>, dims: nat, k: nat)
    requires |points| == 2 && Uniform(points, dims) && At(buf, at, PointsBytes(points)) && k < dims
    ensures at + 8 * (k + dims) + 8 <= |buf| && Double(buf, at + 8 * (k + dims)) == points[1][k]
  {
    hide CoordinateBytes, At, Double, PointsBytes;
    assert PointsBytes(points) == CoordinateBytes(points[0]) + PointsBytes(points[1..]) by { PointsUnfold(points); }
    AtSplit(buf, at, CoordinateBytes(points[0]), PointsBytes(points[1..]));
    FirstPoint(points[1..], at + 8 * dims, buf, dims, k);
  }

  lemma PointsUnfold(points: PointArray)
    requires points != []
    ensures PointsBytes(points) == CoordinateBytes(points[0]) + PointsBytes(points[1..])
  {
    hide CoordinateBytes;
  }

  lemma RangeOfOne(fl: Floats, points: PointArray, d: nat)
    requires |points| == 1 && d < |points[0]|
    ensures RangeOf(fl, points, d) == Range(fl.num(points[0][d]), fl.num(points[0][d]))
  {
  }

  lemma RangeOfTwo(fl: Floats, points: PointArray, d: nat)
    requires |points| == 2 && d < |points[0]| && d < |points[1]|
    ensures var a, b := fl.num(points[0][d]), fl.num(points[1][d]);
            RangeOf(fl, points, d) == Range(FpMin(a, b), FpMax(a, b))
  {
    hide Lowest, Highest, Column;
    RangeOfFirst(fl, points, d);
    RangeOfNext(fl, points, 1, d);
    assert points[..2] == points;
  }

  function SpanAt(fl: Floats, buf: seq<byte>, i: nat, j: nat): Range
    requires i + 8 <= |buf| && j + 8 <= |buf|
  {
    var a, b := fl.num(Double(buf, i)), fl.num(Double(buf, j));
    Range(FpMin(a, b), FpMax(a, b))
  }

  lemma PointRange(fl: Floats, points: PointArray, i: nat, buf: seq<byte>, dims: nat, k: nat)
    requires |points| == 1 && Uniform(points, dims) && At(buf, i, PointsBytes(points)) && k < dims
    ensures i + 8 * k + 8 <= |buf|
    ensures RangeOf(fl, points, k) == Range(fl.num(Double(buf, i + 8 * k)), fl.num(Double(buf, i + 8 * k)))
  {
    FirstPoint(points, i, buf, dims, k);
    RangeOfOne(fl, points, k);
  }

  lemma SegmentRange(fl: Floats, points: PointArray, i: nat, buf: seq<byte>, dims: nat, k: nat)
    requires |points| == 2 && Uniform(points, dims) && At(buf, i, PointsBytes(points)) && k < dims
    ensures i + 8 * k + 8 <= |buf| && i + 8 * (k + dims) + 8 <= |buf|
    ensures RangeOf(fl, points, k) == SpanAt(fl, buf, i + 8 * k, i + 8 * (k + dims))
  {
    hide PointsBytes, At, Double, RangeOf, Uniform;
    FirstPoint(points, i, buf, dims, k);
    SecondPoint(points, i, buf, dims, k);
    TwoPoints(points, dims);
    RangeOfTwo(fl, points, k);
  }

  lemma TwoPoints(points: PointArray, dims: nat)
    requires |points| == 2 && Uniform(points, dims)
    ensures |points[0]| == dims && |points[1]| == dims
  {
  }

  /** The box of the one point at dptr[i..]. */
  method PeekPoint(fl: Floats, buf: seq<byte>, i: nat, withZ: bool, withM: bool, box: Box, ghost points: PointArray)
    requires |points| == 1 && Uniform(points, Dims(withZ, withM)) && At(buf, i, PointsBytes(points))
    modifies box
    ensures box.Shows(fl, points, withZ, withM)
  {
    hide At, PointsBytes, Double, RangeOf;
    ghost var dims := Dims(withZ, withM);
    PointRange(fl, points, i, buf, dims, 0);
    PointRange(fl, points, i, buf, dims, 1);
    if withZ || withM { PointRange(fl, points, i, buf, dims, 2); }
    if withZ && withM { PointRange(fl, points, i, buf, dims, 3); }
    var v := fl.num(Double(buf, i));
    var pos := i + 8;
    box.x := Range(v, v);
    v := fl.num(Double(buf, pos));
    pos := pos + 8;
    box.y := Range(v, v);
    box.hasZ, box.hasM := withZ, withM;
    if withZ {
      v := fl.num(Double(buf, pos));
      pos := pos + 8;
      box.z := Range(v, v);
    }
    if withM {
      v := fl.num(Double(buf, pos));
      pos := pos + 8;
      box.m := Range(v, v);
    }
  }

  /** The box of the two points at dptr[i..]. */
  method PeekSegment(fl: Floats, buf: seq<byte>, i: nat, withZ: bool, withM: bool, box: Box, ghost points: PointArray)
    requires |points| == 2 && Uniform(points, Dims(withZ, withM)) && At(buf, i, PointsBytes(points))
    modifies box
    ensures box.Shows(fl, points, withZ, withM)
  {
    hide At, PointsBytes, Double, RangeOf, SpanAt;
    var ndims := Dims(withZ, withM);
    SegmentRange(fl, points, i, buf, ndims, 0);
    SegmentRange(fl, points, i, buf, ndims, 1);
    if withZ || withM { SegmentRange(fl, points, i, buf, ndims, 2); }
    if withZ && withM { SegmentRange(fl, points, i, buf, ndims, 3); }
    var pos := 0;
    box.x := SpanAt(fl, buf, i + 8 * pos, i + 8 * (pos + ndims));
    pos := pos + 1;
    box.y := SpanAt(fl, buf, i + 8 * pos, i + 8 * (pos + ndims));
    box.hasZ, box.hasM := withZ, withM;
    if withZ {
      pos := pos + 1;
      box.z := SpanAt(fl, buf, i + 8 * pos, i + 8 * (pos + ndims));
    }
    if withM {
      pos := pos + 1;
      box.m := SpanAt(fl, buf, i + 8 * pos, i + 8 * (pos + ndims));
    }
  }

  /** What the fast path covers: one point, a line of two, and collections of one such member. */
  ghost predicate Peekable(g: Geometry) {
    || (g.Point? && |g.points| == 1)
    || (g.Line? && |g.points| == 2)
    || (g.Collection? && |g.geoms| == 1 && g.kind == MULTIPOINTTYPE && g.geoms[0].Point? && |g.geoms[0].points| == 1)
    || (g.Collection? && |g.geoms| == 1 && g.kind == MULTILINETYPE && g.geoms[0].Line? && |g.geoms[0].points| == 2)
  }

  /** lwgeom_count_vertices: none in an empty polygon. */
  function CountVertices(g: Geometry): nat
    decreases g, 0
  {
    match g
    case Polygon(rings) => if rings == [] || rings[0] == [] then 0 else CountPoints(rings)
    case Collection(_, geoms) => CountAll(geoms)
    case _ => |g.points|
  }

  function CountPoints(rings: seq<PointArray>): nat {
    if rings == [] then 0 else |rings[0]| + CountPoints(rings[1..])
  }

  function CountAll(geoms: seq<Geometry>): nat
    decreases geoms, 1
  {
    if geoms == [] then 0 else CountVertices(geoms[0]) + CountAll(geoms[1..])
  }

  /** lwgeom_needs_bbox. */
  predicate NeedsBbox(g: Geometry) {
    match g
    case Point(_) => false
    case Line(_) => CountVertices(g) > 2
    case Collection(kind, geoms) =>
      if kind == MULTIPOINTTYPE then |geoms| != 1
      else if kind == MULTILINETYPE then |geoms| != 1 || CountVertices(g) > 2
      else true
    case _ => true
  }

  /** No box is needed exactly by a point, by a line of at most two points and by a collection of one such
      member. What is stored without a box has one that the fast path reads off, or at most one vertex. */
  lemma NoBoxNeeded(g: Geometry, dims: nat)
    requires WellFormed(g, dims) && SubtypesAllowed(g)
    ensures !NeedsBbox(g) <==>
              || g.Point?
              || (g.Line? && |g.points| <= 2)
              || (g.Collection? && |g.geoms| == 1 && g.kind == MULTIPOINTTYPE && g.geoms[0].Point?)
              || (g.Collection? && |g.geoms| == 1 && g.kind == MULTILINETYPE && g.geoms[0].Line?
                  && |g.geoms[0].points| <= 2)
    ensures Peekable(g) ==> !NeedsBbox(g)
    ensures !NeedsBbox(g) && !Peekable(g) ==> |BoxVertices(g)| <= 1
  {
    if g.Collection? && |g.geoms| == 1 && g.kind in {MULTIPOINTTYPE, MULTILINETYPE} {
      MemberKind(g, dims);
      SingleVertices(g.kind, g.geoms);
      SingleCount(g.kind, g.geoms);
    }
  }

  lemma SingleCount(kind: nat, geoms: seq<Geometry>)
    requires |geoms| == 1
    ensures CountVertices(Collection(kind, geoms)) == CountVertices(geoms[0])
  {
    assert geoms[1..] == [];
    assert CountAll(geoms) == CountVertices(geoms[0]) + CountAll([]);
  }

  lemma SingleMember(kind: nat, geoms: seq<Geometry>, buf: seq<byte>, at: nat)
    requires |geoms| == 1 && At(buf, at, Bytes(Collection(kind, geoms)))
    ensures At(buf, at + 8, Bytes(geoms[0])) && BoxVertices(Collection(kind, geoms)) == BoxVertices(geoms[0])
  {
    hide At, Bytes, BoxVertices;
    CollectionHead(kind, geoms, buf, at);
    MembersHead(geoms, buf, at + 8);
    SingleVertices(kind, geoms);
  }

  lemma SingleVertices(kind: nat, geoms: seq<Geometry>)
    requires |geoms| == 1
    ensures BoxVertices(Collection(kind, geoms)) == BoxVertices(geoms[0])
  {
    var none: seq<Geometry> := geoms[..0];
    assert AllVertices(none) == [];
    assert AllVertices(geoms) == AllVertices(none) + BoxVertices(geoms[0]);
  }

  lemma HeadFields(g: Geometry, dims: nat, buf: seq<byte>, at: nat)
    requires WellFormed(g, dims) && |Bytes(g)| < SIZE_LIMIT && At(buf, at, Bytes(g))
    ensures at + 8 <= |buf| && Uint32(buf, at) == TypeOf(g) && Uint32(buf, at + 4) == Count(g)
    ensures !g.Polygon? && !g.Collection? ==> At(buf, at + 8, PointsBytes(g.points))
  {
    hide Uint32, At, PointsBytes, Head;
    if g.Collection? {
      CollectionHead(g.kind, g.geoms, buf, at);
    } else if g.Polygon? {
      PolygonHead(g.rings, buf, at);
    } else {
      SimpleHead(g, buf, at);
      FewPoints(g.points, dims);
    }
    ReadsHead(buf, at, TypeOf(g), Count(g));
  }

  /** gserialized2_peek_gbox_p on the bytes of g: it succeeds exactly on the shapes it covers, with
      the smallest box around the vertices of g, rounded outwards. */
  method PeekGbox(fl: Floats, buf: seq<byte>, at: nat, withZ: bool, withM: bool, geodetic: bool, hasBox: bool, box: Box,
                  ghost g: Geometry) returns (ok: bool)
    requires WellFormed(g, Dims(withZ, withM)) && SubtypesAllowed(g) && |Bytes(g)| < SIZE_LIMIT && At(buf, at, Bytes(g))
    modifies box
    ensures ok <==> !geodetic && !hasBox && Peekable(g)
    ensures ok ==> BoxVertices(g) != [] && Wide(BoxVertices(g), Dims(withZ, withM))
    ensures ok ==> box.hasZ == withZ && box.hasM == withM
    ensures ok ==> box.Contents() == Rounded(fl, BoxOf(fl, BoxVertices(g), Dims(withZ, withM)))
  {
    hide At, Uint32, Bytes, PointsBytes, BoxVertices;
    ghost var dims := Dims(withZ, withM);
    HeadFields(g, dims, buf, at);
    if geodetic || hasBox { return false; }
    var kind := Uint32(buf, at);
    KindOf(g, dims);
    if kind == POINTTYPE {
      if Uint32(buf, at + 4) == 0 { return false; }
      PeekPoint(fl, buf, at + 8, withZ, withM, box, g.points);
      box.FloatRound(fl);
      return true;
    } else if kind == LINETYPE {
      if Uint32(buf, at + 4) != 2 { return false; }
      PeekSegment(fl, buf, at + 8, withZ, withM, box, g.points);
      box.FloatRound(fl);
      return true;
    } else if kind == MULTIPOINTTYPE {
      if Uint32(buf, at + 4) != 1 { return false; }
      OnlyMember(g, dims, buf, at);
      if Uint32(buf, at + 12) != 1 { return false; }
      PeekPoint(fl, buf, at + 16, withZ, withM, box, g.geoms[0].points);
      box.FloatRound(fl);
      return true;
    } else if kind == MULTILINETYPE {
      if Uint32(buf, at + 4) != 1 { return false; }
      OnlyMember(g, dims, buf, at);
      if Uint32(buf, at + 12) != 2 { return false; }
      PeekSegment(fl, buf, at + 16, withZ, withM, box, g.geoms[0].points);
      box.FloatRound(fl);
      return true;
    }
    return false;
  }

  lemma KindOf(g: Geometry, dims: nat)
    requires WellFormed(g, dims)
    ensures TypeOf(g) == POINTTYPE <==> g.Point?
    ensures TypeOf(g) == LINETYPE <==> g.Line?
    ensures TypeOf(g) in {MULTIPOINTTYPE, MULTILINETYPE} ==> g.Collection?
    ensures g.Point? || g.Line? ==> BoxVertices(g) == g.points
  {
  }

  lemma OnlyMember(g: Geometry, dims: nat, buf: seq<byte>, at: nat)
    requires WellFormed(g, dims) && SubtypesAllowed(g) && |Bytes(g)| < SIZE_LIMIT && At(buf, at, Bytes(g))
    requires g.Collection? && |g.geoms| == 1 && g.kind in {MULTIPOINTTYPE, MULTILINETYPE}
    ensures at + 16 <= |buf| && WellFormed(g.geoms[0], dims)
    ensures if g.kind == MULTIPOINTTYPE then g.geoms[0].Point? else g.geoms[0].Line?
    ensures Uint32(buf, at + 12) == |g.geoms[0].points| && At(buf, at + 16, PointsBytes(g.geoms[0].points))
    ensures BoxVertices(g) == g.geoms[0].points
  {
    hide At, Uint32, Bytes, PointsBytes;
    MemberKind(g, dims);
    SingleMember(g.kind, g.geoms, buf, at);
    CollectionHead(g.kind, g.geoms, buf, at);
    MembersHead(g.geoms, buf, at + 8);
    HeadFields(g.geoms[0], dims, buf, at + 8);
  }

  lemma MemberKind(g: Geometry, dims: nat)
    requires WellFormed(g, dims) && SubtypesAllowed(g) && g.Collection? && |g.geoms| == 1
    requires g.kind in {MULTIPOINTTYPE, MULTILINETYPE}
    ensures WellFormed(g.geoms[0], dims)
    ensures if g.kind == MULTIPOINTTYPE then g.geoms[0].Point? else g.geoms[0].Line?
  {
    KindOf(g.geoms[0], dims);
  }

  lemma PeekableSpans(fl: Floats, g: Geometry, dims: nat)
    requires WellFormed(g, dims) && Peekable(g) && BoxVertices(g) != [] && Wide(BoxVertices(g), dims)
    ensures BoxSpans(fl, g, dims) == VertexSpans(fl, BoxVertices(g))
    ensures BoxSpans(fl, g, dims) != [] && Hull(BoxSpans(fl, g, dims), dims) == BoxOf(fl, BoxVertices(g), dims)
  {
    hide Hull, BoxOf, VertexSpans;
    if g.Collection? {
      SingleVertices(g.kind, g.geoms);
      var none: seq<Geometry> := g.geoms[..0];
      assert AllSpans(fl, none, dims) == [];
      assert AllSpans(fl, g.geoms, dims) == AllSpans(fl, none, dims) + BoxSpans(fl, g.geoms[0], dims);
    }
    HullOfVertices(fl, BoxVertices(g), dims);
  }

  /** gserialized2_get_gbox_p without a stored box: the fast path and the detour over the geometry
      give one and the same box. */
  method GetGbox(fl: Floats, buf: seq<byte>, at: nat, withZ: bool, withM: bool, box: Box, ghost g: Geometry)
    returns (ok: bool)
    requires WellFormed(g, Dims(withZ, withM)) && SubtypesAllowed(g)
    requires |Bytes(g)| < SIZE_LIMIT && At(buf, at, Bytes(g))
    modifies box
    ensures ok <==> BoxSpans(fl, g, Dims(withZ, withM)) != []
    ensures ok ==> box.hasZ == withZ && box.hasM == withM
    ensures ok ==> box.Contents() == Rounded(fl, Hull(BoxSpans(fl, g, Dims(withZ, withM)), Dims(withZ, withM)))
  {
    hide At, Bytes, WellFormed, BoxVertices, BoxOf, Parse, SubtypesAllowed, Peekable, Rounded, BoxSpans, Hull;
    var quick := PeekGbox(fl, buf, at, withZ, withM, false, false, box, g);
    if quick {
      PeekableSpans(fl, g, Dims(withZ, withM));
      return true;
    }
    RoundTrip(g, Dims(withZ, withM), buf, at);
    var parsed := ReadAny(buf, at, Dims(withZ, withM));
    box.hasZ, box.hasM := withZ, withM;
    ok := CalculateGbox(fl, parsed.geom, withZ, withM, box);
    box.FloatRound(fl);
  }
}
