/** Circles on the sphere as liblwgeom/lwgeodetic_tree.c merges them into bounding circles.
    The sphere enters as a Geometry: a distance with the laws of a metric, a projection along the
    arc between two points, and the edge primitives of lwgeodetic.c. */
module CircGeometry {
  import opened FloatRange

  datatype Point = Point(lon: real, lat: real)

  /** The two end points of an edge; a point is an edge with equal ends. */
  datatype Edge = Edge(p1: Point, p2: Point)

  datatype Circle = Circle(center: Point, radius: real)

  /** A leaf of the tree: an edge and its bounding circle. */
  datatype Leaf = Leaf(circle: Circle, edge: Edge)

  /** The bits of edge_intersects that the parity count looks at. */
  datatype Crossing = Crossing(intersects: bool, touchesRight: bool, colinear: bool)

  datatype Geometry = Geometry(
    dist: (Point, Point) -> real,             // sphere_distance
    project: (Point, Point, real) -> Point,   // circ_center_spherical
    midpoint: (Point, Point) -> Point,        // the normalised vector sum of two points
    onEdge: (Edge, Point) -> bool,            // the points of an edge
    nearest: (Edge, Edge) -> (Point, Point),  // the closest pair of points of two edges
    stabDist: (Edge, Point) -> real,          // edge_distance_to_point
    crossing: (Edge, Edge) -> Crossing,       // edge_intersects
    meet: (Edge, Edge) -> Point)              // a common point of two edges that intersect

  /** FP_TOLERANCE as lwgeodetic.h redefines it. */
  const FP_TOLERANCE := 0.00000000000005

  ghost predicate IsMetric(g: Geometry) {
    && (forall a, b :: 0.0 <= g.dist(a, b) < FLT_MAX)
    && (forall a, b :: g.dist(a, b) == g.dist(b, a))
    && (forall a :: g.dist(a, a) == 0.0)
    && (forall a, b, c :: g.dist(a, c) <= g.dist(a, b) + g.dist(b, c))
    && (forall a, b, t :: 0.0 <= t <= g.dist(a, b) ==>
         g.dist(a, g.project(a, b, t)) == t && g.dist(g.project(a, b, t), b) == g.dist(a, b) - t)
  }

  ghost predicate EdgesAreSound(g: Geometry) {
    && (forall a, b, x :: g.onEdge(Edge(a, b), x) ==> g.dist(g.midpoint(a, b), x) <= g.dist(a, b) / 2.0)
    && (forall a, x :: g.onEdge(Edge(a, a), x) ==> x == a)
    && (forall e, f :: g.onEdge(e, g.nearest(e, f).0) && g.onEdge(f, g.nearest(e, f).1))
    && (forall e, f, x, y :: g.onEdge(e, x) && g.onEdge(f, y) ==>
         g.dist(g.nearest(e, f).0, g.nearest(e, f).1) <= g.dist(x, y))
    && (forall s, e :: g.crossing(s, e).intersects ==> g.onEdge(e, g.meet(s, e)))
    && (forall s, e, c :: g.crossing(s, e).intersects ==> g.stabDist(s, c) <= g.dist(c, g.meet(s, e)))
  }

  ghost predicate IsGeometry(g: Geometry) {
    IsMetric(g) && EdgesAreSound(g)
  }

  lemma Triangle(g: Geometry, a: Point, b: Point, c: Point)
    requires IsGeometry(g)
    ensures g.dist(a, c) <= g.dist(a, b) + g.dist(b, c)
    ensures 0.0 <= g.dist(a, b) < FLT_MAX && g.dist(a, b) == g.dist(b, a) && g.dist(a, a) == 0.0
  {
  }

  lemma Projected(g: Geometry, a: Point, b: Point, t: real)
    requires IsGeometry(g) && 0.0 <= t <= g.dist(a, b)
    ensures g.dist(a, g.project(a, b, t)) == t && g.dist(g.project(a, b, t), b) == g.dist(a, b) - t
  {
  }

  lemma NearestOnEdges(g: Geometry, e: Edge, f: Edge)
    requires IsGeometry(g)
    ensures g.onEdge(e, g.nearest(e, f).0) && g.onEdge(f, g.nearest(e, f).1)
  {
  }

  lemma CrossingPoint(g: Geometry, s: Edge, e: Edge, c: Point)
    requires IsGeometry(g) && g.crossing(s, e).intersects
    ensures g.onEdge(e, g.meet(s, e)) && g.stabDist(s, c) <= g.dist(c, g.meet(s, e))
  {
  }

  /** The leaf circle contains the edge. */
  ghost predicate GoodLeaf(g: Geometry, l: Leaf) {
    forall x :: g.onEdge(l.edge, x) ==> g.dist(l.circle.center, x) <= l.circle.radius
  }

  /** circ_node_leaf_new: the circle around the midpoint through the ends. */
  function EdgeLeaf(g: Geometry, p1: Point, p2: Point): Leaf {
    Leaf(Circle(g.midpoint(p1, p2), g.dist(p1, p2) / 2.0), Edge(p1, p2))
  }

  /** circ_node_leaf_point_new: a circle of radius zero. */
  function PointLeaf(p: Point): Leaf {
    Leaf(Circle(p, 0.0), Edge(p, p))
  }

  lemma LeavesAreGood(g: Geometry, p1: Point, p2: Point)
    requires IsGeometry(g)
    ensures GoodLeaf(g, EdgeLeaf(g, p1, p2)) && GoodLeaf(g, PointLeaf(p1))
  {
  }

  lemma OnGoodLeaf(g: Geometry, l: Leaf, x: Point)
    requires GoodLeaf(g, l) && g.onEdge(l.edge, x)
    ensures g.dist(l.circle.center, x) <= l.circle.radius
  {
  }

  // ----- circles that contain circles -----

  /** The inner circle lies inside the outer one. */
  predicate Covers(g: Geometry, outer: Circle, inner: Circle) {
    g.dist(outer.center, inner.center) + inner.radius <= outer.radius
  }

  lemma CoversTrans(g: Geometry, a: Circle, b: Circle, c: Circle)
    requires IsGeometry(g) && Covers(g, a, b) && Covers(g, b, c)
    ensures Covers(g, a, c)
  {
    Triangle(g, a.center, b.center, c.center);
  }

  lemma CoversPoint(g: Geometry, outer: Circle, inner: Circle, x: Point)
    requires IsGeometry(g) && Covers(g, outer, inner) && g.dist(inner.center, x) <= inner.radius
    ensures g.dist(outer.center, x) <= outer.radius
  {
    Triangle(g, outer.center, inner.center, x);
  }

  function Abs(x: real): real {
    if x < 0.0 then -x else x
  }

  /** One round of the loop of circ_node_internal_new: circle c1 grown by circle ci. */
  function MergeCircle(g: Geometry, c1: Circle, ci: Circle): Circle {
    var dist := g.dist(c1.center, ci.center);
    var r1, ri := c1.radius, ci.radius;
    if Abs(dist - 0.0) <= FP_TOLERANCE then Circle(c1.center, r1 + 2.0 * dist)
    else if dist < Abs(r1 - ri) then
      if r1 > ri then Circle(c1.center, r1) else Circle(ci.center, ri)
    else
      var D := dist + r1 + ri;
      var offset1 := ri + (D - (2.0 * r1 + 2.0 * ri)) / 2.0;
      Circle(g.project(c1.center, ci.center, offset1), D / 2.0)
  }

  /** The centres coincide within the tolerance and the next circle is the larger one. */
  predicate Slips(g: Geometry, c1: Circle, ci: Circle) {
    g.dist(c1.center, ci.center) <= FP_TOLERANCE && ci.radius > c1.radius + g.dist(c1.center, ci.center)
  }

  /** The grown circle always contains the old one; it contains the next one exactly when the
      branch for coincident centres does not meet a larger circle. */
  lemma MergeCoversBoth(g: Geometry, c1: Circle, ci: Circle)
    requires IsGeometry(g)
    ensures Covers(g, MergeCircle(g, c1, ci), c1)
    ensures Covers(g, MergeCircle(g, c1, ci), ci) <==> !Slips(g, c1, ci)
  {
    hide IsGeometry;
    Triangle(g, c1.center, ci.center, c1.center);
    Triangle(g, ci.center, c1.center, ci.center);
    var dist := g.dist(c1.center, ci.center);
    var r1, ri := c1.radius, ci.radius;
    if dist > FP_TOLERANCE && dist >= Abs(r1 - ri) {
      var offset1 := ri + ((dist + r1 + ri) - (2.0 * r1 + 2.0 * ri)) / 2.0;
      assert 0.0 <= offset1 <= dist;
      Projected(g, c1.center, ci.center, offset1);
      var p := g.project(c1.center, ci.center, offset1);
      Triangle(g, c1.center, p, ci.center);
    }
  }

  /** No smaller circle contains both, unless their centres coincide within the tolerance; then the grown
      circle is at most by twice the tolerance larger than the old one. */
  lemma MergeIsSmallest(g: Geometry, c1: Circle, ci: Circle, outer: Circle)
    requires IsGeometry(g) && Covers(g, outer, c1) && Covers(g, outer, ci)
    ensures FP_TOLERANCE < g.dist(c1.center, ci.center) ==> MergeCircle(g, c1, ci).radius <= outer.radius
    ensures g.dist(c1.center, ci.center) <= FP_TOLERANCE ==>
              MergeCircle(g, c1, ci).radius <= c1.radius + 2.0 * FP_TOLERANCE
  {
    hide IsGeometry;
    Triangle(g, c1.center, outer.center, ci.center);
    Triangle(g, outer.center, c1.center, outer.center);
    Triangle(g, outer.center, ci.center, outer.center);
    Triangle(g, c1.center, ci.center, c1.center);
  }

  /** No smaller circle than that of a leaf contains both ends of its edge. */
  lemma LeafIsSmallest(g: Geometry, p1: Point, p2: Point, outer: Circle)
    requires IsGeometry(g) && g.dist(outer.center, p1) <= outer.radius && g.dist(outer.center, p2) <= outer.radius
    ensures EdgeLeaf(g, p1, p2).circle.radius <= outer.radius && PointLeaf(p1).circle == Circle(p1, 0.0)
  {
    hide IsGeometry;
    Triangle(g, p1, outer.center, p2);
    Triangle(g, outer.center, p1, outer.center);
  }

  /** The circle that circ_node_internal_new gives the parent of nodes with circles cs. */
  function MergeCircles(g: Geometry, cs: seq<Circle>): Circle
    requires cs != []
  {
    if |cs| == 1 then cs[0] else MergeCircle(g, MergeCircles(g, cs[..|cs| - 1]), cs[|cs| - 1])
  }

  /** No round of the loop meets the coincident-centre branch with a larger circle. */
  predicate NeverSlips(g: Geometry, cs: seq<Circle>)
    requires cs != []
  {
    |cs| == 1 || (NeverSlips(g, cs[..|cs| - 1]) && !Slips(g, MergeCircles(g, cs[..|cs| - 1]), cs[|cs| - 1]))
  }

  /** The bounding circle of a new internal node contains the circles of all its children. */
  lemma {:induction false} MergedCircleCoversAll(g: Geometry, cs: seq<Circle>, i: int)
    requires IsGeometry(g) && cs != [] && NeverSlips(g, cs) && 0 <= i < |cs|
    ensures Covers(g, MergeCircles(g, cs), cs[i])
  {
    hide IsGeometry;
    var n := |cs| - 1;
    if n == 0 {
      Triangle(g, cs[0].center, cs[0].center, cs[0].center);
    } else {
      var before := MergeCircles(g, cs[..n]);
      MergeCoversBoth(g, before, cs[n]);
      if i < n {
        MergedCircleCoversAll(g, cs[..n], i);
        assert cs[..n][i] == cs[i];
        CoversTrans(g, MergeCircles(g, cs), before, cs[i]);
      }
    }
  }

  // ----- a concrete geometry: the unit interval of longitudes -----

  function Clamp(p: Point): real {
    if p.lon < 0.0 then 0.0 else if p.lon > 1.0 then 1.0 else p.lon
  }

  function IntervalDist(a: Point, b: Point): real {
    Abs(Clamp(a) - Clamp(b))
  }

  function IntervalProject(a: Point, b: Point, t: real): Point {
    if Clamp(a) <= Clamp(b) then Point(Clamp(a) + t, 0.0) else Point(Clamp(a) - t, 0.0)
  }

  function Interval(): Geometry {
    Geometry(
      (a: Point, b: Point) => IntervalDist(a, b),
      (a: Point, b: Point, t: real) => IntervalProject(a, b, t),
      (a: Point, b: Point) => IntervalProject(a, b, IntervalDist(a, b) / 2.0),
      (e: Edge, x: Point) => x == e.p1,
      (e: Edge, f: Edge) => (e.p1, f.p1),
      (s: Edge, x: Point) => IntervalDist(s.p1, x),
      (s: Edge, e: Edge) => Crossing(s.p1 == e.p1, false, false),
      (s: Edge, e: Edge) => e.p1)
  }

  lemma IntervalIsMetric()
    ensures IsMetric(Interval())
  {
    var g := Interval();
    forall a, b ensures 0.0 <= g.dist(a, b) < FLT_MAX && g.dist(a, b) == g.dist(b, a) {
      assert g.dist(a, b) == IntervalDist(a, b) && g.dist(b, a) == IntervalDist(b, a);
    }
    forall a, b, c ensures g.dist(a, c) <= g.dist(a, b) + g.dist(b, c) {
      assert IntervalDist(a, c) <= IntervalDist(a, b) + IntervalDist(b, c);
    }
  }

  lemma IntervalIsGeometry()
    ensures IsGeometry(Interval())
  {
    var g := Interval();
    IntervalIsMetric();
    forall a, b, x | g.onEdge(Edge(a, b), x) ensures g.dist(g.midpoint(a, b), x) <= g.dist(a, b) / 2.0 {
      assert x == a && IntervalDist(IntervalProject(a, b, IntervalDist(a, b) / 2.0), a) <= IntervalDist(a, b) / 2.0;
    }
    forall s, e, c ensures g.crossing(s, e).intersects ==> g.stabDist(s, c) <= g.dist(c, g.meet(s, e)) {
      assert IntervalDist(s.p1, c) == IntervalDist(c, s.p1);
    }
  }

  /** The loop of circ_node_internal_new does not always cover its children: two circles with the
      same centre, the larger one second, give a parent that is too small. */
  lemma CoincidentCentresLoseTheLargerCircle()
    ensures IsGeometry(Interval())
    ensures var cs := [Circle(Point(0.5, 0.0), 0.1), Circle(Point(0.5, 0.0), 0.4)];
            MergeCircles(Interval(), cs) == cs[0] && !Covers(Interval(), MergeCircles(Interval(), cs), cs[1])
  {
    IntervalIsGeometry();
    var cs := [Circle(Point(0.5, 0.0), 0.1), Circle(Point(0.5, 0.0), 0.4)];
    assert cs[..1] == [cs[0]];
    assert MergeCircles(Interval(), cs[..1]) == cs[0];
  }
}
