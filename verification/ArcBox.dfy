/** The box of a circular arc through three points: lw_arc_center and lw_segment_side of
    liblwgeom/lwalgorithm.c and lw_arc_calculate_gbox_cartesian_2d of liblwgeom/gbox.c. */
module ArcBox {

  const EPSILON_SQLMM := 0.00000001

  datatype Point2 = Point2(x: real, y: real)
  datatype Box2 = Box2(xmin: real, xmax: real, ymin: real, ymax: real)

  /** The centre and radius of a circle, or no circle for points on a line. */
  datatype Centre = Circle(c: Point2, radius: real) | Straight

  function Abs(x: real): real { if x >= 0.0 then x else -x }

  function Min(a: real, b: real): real { if a < b then a else b }

  function Max(a: real, b: real): real { if a > b then a else b }

  function Square(x: real): real { x * x }

  function Norm2(dx: real, dy: real): real { Square(dx) + Square(dy) }

  function Dist2(p: Point2, q: Point2): real { Norm2(p.x - q.x, p.y - q.y) }

  function Cross(dx: real, dy: real, ex: real, ey: real): real { dx * ey - ex * dy }

  ghost predicate IsSqrt(sqrt: real -> real) {
    forall v: real :: 0.0 <= v ==> 0.0 <= sqrt(v) && sqrt(v) * sqrt(v) == v
  }

  /** Twice the cross product of the two chords from the first point. */
  function Turn(p1: Point2, p2: Point2, p3: Point2): real {
    2.0 * Cross(p2.x - p1.x, p2.y - p1.y, p3.x - p1.x, p3.y - p1.y)
  }

  predicate Closed(p1: Point2, p3: Point2) {
    Abs(p1.x - p3.x) < EPSILON_SQLMM && Abs(p1.y - p3.y) < EPSILON_SQLMM
  }

  /** Where the centre lies from the first point, to the right and below. */
  function CentreFrom(dx21: real, dy21: real, dx31: real, dy31: real, d: real): Point2
    requires d != 0.0
  {
    var h21, h31 := Norm2(dx21, dy21), Norm2(dx31, dy31);
    Point2((h21 * dy31 - h31 * dy21) / d, (h21 * dx31 - h31 * dx21) / d)
  }

  /** lw_arc_center. */
  function ArcCentre(sqrt: real -> real, p1: Point2, p2: Point2, p3: Point2): Centre {
    if Closed(p1, p3) then
      var c := Point2(p1.x + (p2.x - p1.x) / 2.0, p1.y + (p2.y - p1.y) / 2.0);
      Circle(c, sqrt(Dist2(c, p1)))
    else
      var d := Turn(p1, p2, p3);
      if Abs(d) < EPSILON_SQLMM then Straight
      else
        var o := CentreFrom(p2.x - p1.x, p2.y - p1.y, p3.x - p1.x, p3.y - p1.y, d);
        var c := Point2(p1.x + o.x, p1.y - o.y);
        Circle(c, sqrt(Dist2(c, p1)))
  }

  /** Which side of the line from p1 to p2 the point is on, as a number. */
  function Side(p1: Point2, p2: Point2, q: Point2): real {
    (q.x - p1.x) * (p2.y - p1.y) - (p2.x - p1.x) * (q.y - p1.y)
  }

  /** SIGNUM. */
  function Sign(v: real): int {
    (if v > 0.0 then 1 else 0) - if v < 0.0 then 1 else 0
  }

  /** lw_segment_side. */
  function SegmentSide(p1: Point2, p2: Point2, q: Point2): int {
    Sign(Side(p1, p2, q))
  }

  /** lw_arc_calculate_gbox_cartesian_2d. */
  function ArcBounds(sqrt: real -> real, a1: Point2, a2: Point2, a3: Point2): Box2 {
    var ends := Box2(Min(a1.x, a3.x), Max(a1.x, a3.x), Min(a1.y, a3.y), Max(a1.y, a3.y));
    match ArcCentre(sqrt, a1, a2, a3)
    case Straight => ends
    case Circle(c, r) =>
      if a1 == a3 then Box2(c.x - r, c.x + r, c.y - r, c.y + r)
      else
        var side := SegmentSide(a1, a3, a2);
        Box2(if side == SegmentSide(a1, a3, Point2(c.x - r, c.y)) then c.x - r else ends.xmin,
             if side == SegmentSide(a1, a3, Point2(c.x + r, c.y)) then c.x + r else ends.xmax,
             if side == SegmentSide(a1, a3, Point2(c.x, c.y - r)) then c.y - r else ends.ymin,
             if side == SegmentSide(a1, a3, Point2(c.x, c.y + r)) then c.y + r else ends.ymax)
  }

  // ----- the circle through the points -----

  /** The offset solves the two equations of equal distance. */
  lemma Equidistant(dx2: real, dy2: real, dx3: real, dy3: real, d: real)
    requires d == 2.0 * Cross(dx2, dy2, dx3, dy3) && d != 0.0
    ensures var o := CentreFrom(dx2, dy2, dx3, dy3, d);
            Norm2(o.x - dx2, -o.y - dy2) == Norm2(o.x, -o.y) == Norm2(o.x - dx3, -o.y - dy3)
  {
    hide Norm2, Cross;
    var o := CentreFrom(dx2, dy2, dx3, dy3, d);
    Cramer(dx2, dy2, dx3, dy3, Norm2(dx2, dy2), Norm2(dx3, dy3), d, o.x, o.y);
    SameDistance(o.x, -o.y, dx2, dy2);
    SameDistance(o.x, -o.y, dx3, dy3);
  }

  /** Cramer's rule. */
  lemma Cramer(dx2: real, dy2: real, dx3: real, dy3: real, h2: real, h3: real, d: real, u: real, v: real)
    requires d == 2.0 * Cross(dx2, dy2, dx3, dy3) && d != 0.0
    requires u == (h2 * dy3 - h3 * dy2) / d && v == (h2 * dx3 - h3 * dx2) / d
    ensures 2.0 * Cross(u, v, dy2, dx2) == h2 && 2.0 * Cross(u, v, dy3, dx3) == h3
  {
    hide Cross;
    Undivide(h2 * dy3 - h3 * dy2, d, u);
    Undivide(h2 * dx3 - h3 * dx2, d, v);
    Determinant(dx2, dy2, dx3, dy3, h2, h3, u * d, v * d);
    Collect(u, v, dx2, dy2, d, h2);
    Collect(u, v, dx3, dy3, d, h3);
  }

  lemma Undivide(x: real, d: real, q: real)
    requires d != 0.0 && q == x / d
    ensures q * d == x
  {
  }

  lemma Determinant(dx2: real, dy2: real, dx3: real, dy3: real, h2: real, h3: real, m: real, n: real)
    requires m == h2 * dy3 - h3 * dy2 && n == h2 * dx3 - h3 * dx2
    ensures 2.0 * Cross(m, n, dy2, dx2) == h2 * (2.0 * Cross(dx2, dy2, dx3, dy3))
    ensures 2.0 * Cross(m, n, dy3, dx3) == h3 * (2.0 * Cross(dx2, dy2, dx3, dy3))
  {
  }

  lemma Collect(u: real, v: real, dx: real, dy: real, d: real, h: real)
    requires d != 0.0 && 2.0 * Cross(u * d, v * d, dy, dx) == h * d
    ensures 2.0 * Cross(u, v, dy, dx) == h
  {
    var x := 2.0 * Cross(u, v, dy, dx);
    assert x * d == 2.0 * Cross(u * d, v * d, dy, dx);
    CancelFactor(x, h, d);
  }

  lemma CancelFactor(x: real, y: real, d: real)
    requires d != 0.0 && x * d == y * d
    ensures x == y
  {
    assert (x - y) * d == 0.0;
  }

  lemma SameDistance(u: real, v: real, dx: real, dy: real)
    requires 2.0 * Cross(u, -v, dy, dx) == Norm2(dx, dy)
    ensures Norm2(u - dx, v - dy) == Norm2(u, v)
  {
  }

  /** The computed centre is as far from all three points as the radius says. */
  lemma CentreIsEquidistant(sqrt: real -> real, p1: Point2, p2: Point2, p3: Point2)
    requires IsSqrt(sqrt) && !Closed(p1, p3) && ArcCentre(sqrt, p1, p2, p3).Circle?
    ensures var m := ArcCentre(sqrt, p1, p2, p3);
            && 0.0 <= m.radius && Dist2(m.c, p1) == Square(m.radius)
            && Dist2(m.c, p2) == Square(m.radius) && Dist2(m.c, p3) == Square(m.radius)
  {
    hide Norm2, Cross, Closed, IsSqrt, CentreFrom, Square;
    var m := ArcCentre(sqrt, p1, p2, p3);
    var dx2, dy2, dx3, dy3, d := p2.x - p1.x, p2.y - p1.y, p3.x - p1.x, p3.y - p1.y, Turn(p1, p2, p3);
    Equidistant(dx2, dy2, dx3, dy3, d);
    Root(sqrt, m.c, p1);
    var o := CentreFrom(dx2, dy2, dx3, dy3, d);
    assert m.c.x - p1.x == o.x && m.c.y - p1.y == -o.y;
    assert m.c.x - p2.x == o.x - dx2 && m.c.y - p2.y == -o.y - dy2;
    assert m.c.x - p3.x == o.x - dx3 && m.c.y - p3.y == -o.y - dy3;
  }

  lemma Root(sqrt: real -> real, c: Point2, p: Point2)
    requires IsSqrt(sqrt)
    ensures var r := sqrt(Dist2(c, p)); 0.0 <= r && Square(r) == Dist2(c, p)
  {
    SquarePositive(c.x - p.x);
    SquarePositive(c.y - p.y);
  }

  // ----- points between two points -----

  /** The point at share t of the way from p to w. */
  function Mix(t: real, p: Point2, w: Point2): Point2 {
    Point2(p.x + t * (w.x - p.x), p.y + t * (w.y - p.y))
  }

  /** A coordinate, to the right, left, top or bottom. */
  function Along(k: int, p: Point2): real {
    if k == 0 then p.x else if k == 1 then -p.x else if k == 2 then p.y else -p.y
  }

  lemma AlongMix(k: int, t: real, p: Point2, w: Point2)
    ensures Along(k, Mix(t, p, w)) == Along(k, p) + t * (Along(k, w) - Along(k, p))
  {
  }

  lemma SideMix(a: Point2, b: Point2, t: real, p: Point2, w: Point2)
    ensures Side(a, b, Mix(t, p, w)) == Side(a, b, p) + t * (Side(a, b, w) - Side(a, b, p))
  {
  }

  function Blend(t: real, a: real, b: real, d: real): real {
    (1.0 - t) * a + t * b - t * (1.0 - t) * d
  }

  lemma SquareMix(t: real, c: real, p: real, w: real, q: real)
    requires q == p + t * (w - p)
    ensures Square(c - q) == Blend(t, Square(c - p), Square(c - w), Square(p - w))
  {
  }

  lemma BlendBoth(t: real, a: real, b: real, d: real, a': real, b': real, d': real)
    ensures Blend(t, a, b, d) + Blend(t, a', b', d') == Blend(t, a + a', b + b', d + d')
  {
  }

  /** Between two points the distance from c is smaller than the mean of theirs. */
  lemma DistMix(c: Point2, t: real, p: Point2, w: Point2)
    ensures Dist2(c, Mix(t, p, w)) == Blend(t, Dist2(c, p), Dist2(c, w), Dist2(p, w))
  {
    hide Square, Blend;
    var q := Mix(t, p, w);
    SquareMix(t, c.x, p.x, w.x, q.x);
    SquareMix(t, c.y, p.y, w.y, q.y);
    BlendBoth(t, Square(c.x - p.x), Square(c.x - w.x), Square(p.x - w.x),
              Square(c.y - p.y), Square(c.y - w.y), Square(p.y - w.y));
  }

  /** The share of the way from a to b at which coordinate q lies. */
  lemma ShareAt(a: real, b: real, q: real) returns (u: real)
    requires a != b
    ensures q == a + u * (b - a) && u * (b - a) == q - a
  {
    u := (q - a) / (b - a);
    Undivide(q - a, b - a, u);
  }

  /** A point on the line through a and b. */
  lemma OnLine(a: Point2, b: Point2, q: Point2) returns (u: real)
    requires a != b && Side(a, b, q) == 0.0
    ensures q == Mix(u, a, b)
  {
    if a.x != b.x {
      u := ShareAt(a.x, b.x, q.x);
      OtherCoordinate(q.x - a.x, b.x - a.x, q.y - a.y, b.y - a.y, u);
    } else {
      u := ShareAt(a.y, b.y, q.y);
      OtherCoordinate(q.y - a.y, b.y - a.y, q.x - a.x, b.x - a.x, u);
    }
  }

  lemma OtherCoordinate(x: real, dx: real, y: real, dy: real, u: real)
    requires dx != 0.0 && u * dx == x && x * dy == dx * y
    ensures y == u * dy
  {
    assert u * dy * dx == x * dy;
    CancelFactor(y, u * dy, dx);
  }

  lemma Times(a: real, b: real)
    ensures 0.0 <= a && 0.0 <= b ==> 0.0 <= a * b
    ensures 0.0 < a && 0.0 < b ==> 0.0 < a * b
    ensures a < 0.0 && 0.0 < b ==> a * b < 0.0
  {
  }

  lemma Outside(u: real, n: real)
    requires (u < 0.0 || 1.0 < u) && 0.0 < n
    ensures u * (1.0 - u) * n < 0.0
  {
    if u < 0.0 { Times(u, 1.0 - u); } else { Times(1.0 - u, u); }
    Times(u * (1.0 - u), n);
  }

  lemma ShareOf(x: real, y: real) returns (t: real)
    requires x != 0.0 && Sign(x) != Sign(y)
    ensures 0.0 < t <= 1.0 && x + t * (y - x) == 0.0
  {
    if 0.0 < x {
      t := PositiveShare(x, x - y);
      assert t * (y - x) == -(t * (x - y));
    } else {
      t := PositiveShare(-x, y - x);
    }
  }

  lemma PositiveShare(x: real, d: real) returns (t: real)
    requires 0.0 < x <= d
    ensures 0.0 < t <= 1.0 && t * d == x
  {
    t := x / d;
    Undivide(x, d, t);
    Times(t, d);
    Times(-t, d);
    Times(t - 1.0, d);
  }

  lemma Apart2(a: Point2, b: Point2)
    ensures 0.0 <= Dist2(a, b) && (a != b ==> 0.0 < Dist2(a, b))
  {
    SquarePositive(a.x - b.x);
    SquarePositive(a.y - b.y);
  }

  lemma PositiveSquare(x: real, y: real)
    requires 0.0 < x && x == y
    ensures 0.0 < Square(x)
  {
    Times(x, y);
    assert Square(x) == x * y;
  }

  lemma SquarePositive(x: real)
    ensures 0.0 <= Square(x) && (x != 0.0 ==> 0.0 < Square(x))
  {
    hide Square;
    if x < 0.0 {
      PositiveSquare(-x, -x);
      Opposite(x);
    } else if 0.0 < x {
      PositiveSquare(x, x);
    } else {
      SquareOfZero();
    }
  }

  lemma SquareOfZero()
    ensures Square(0.0) == 0.0
  {
  }

  lemma Opposite(x: real)
    ensures Square(-x) == Square(x)
  {
  }

  /** Where a circle reaches further out on the other side of a chord, no point on this side lies beyond
      both ends of the chord. */
  lemma BeyondChord(a1: Point2, a3: Point2, c: Point2, p: Point2, w: Point2, k: int)
    requires a1 != a3 && Dist2(c, a1) == Dist2(c, a3) == Dist2(c, p) == Dist2(c, w)
    requires SegmentSide(a1, a3, p) != 0 && SegmentSide(a1, a3, p) != SegmentSide(a1, a3, w)
    requires Along(k, w) <= Along(k, p)
    ensures Min(Along(k, a1), Along(k, a3)) <= Along(k, p)
  {
    hide Dist2, Side, Along, Blend, Mix, Min, Sign;
    SignOfZero(Side(a1, a3, p));
    var t := ShareOf(Side(a1, a3, p), Side(a1, a3, w));
    var q := Mix(t, p, w);
    SideMix(a1, a3, t, p, w);
    var u := OnLine(a1, a3, q);
    DistMix(c, t, p, w);
    DistMix(c, u, a1, a3);
    Apart2(p, w);
    Apart2(a1, a3);
    InsideChord(Dist2(c, p), t, Dist2(p, w), u, Dist2(a1, a3));
    AlongMix(k, t, p, w);
    AlongMix(k, u, a1, a3);
    MixAtLeast(u, Along(k, a1), Along(k, a3));
    MixAtMost(t, Along(k, p), Along(k, w));
  }

  lemma SignOfZero(v: real)
    ensures Sign(v) == 0 <==> v == 0.0
  {
  }

  lemma InsideChord(d: real, t: real, x: real, u: real, n: real)
    requires Blend(t, d, d, x) == Blend(u, d, d, n) && 0.0 <= t <= 1.0 && 0.0 <= x && 0.0 < n
    ensures 0.0 <= u <= 1.0
  {
    assert t * (1.0 - t) * x == u * (1.0 - u) * n by { SameMean(d, t, t * (1.0 - t) * x, u, u * (1.0 - u) * n); }
    Times(t, 1.0 - t);
    Times(t * (1.0 - t), x);
    if u < 0.0 || 1.0 < u { Outside(u, n); }
  }

  lemma SameMean(d: real, t: real, x: real, u: real, y: real)
    requires (1.0 - t) * d + t * d - x == (1.0 - u) * d + u * d - y
    ensures x == y
  {
  }

  lemma MixAtLeast(u: real, a: real, b: real)
    requires 0.0 <= u <= 1.0
    ensures Min(a, b) <= a + u * (b - a)
  {
    Times(1.0 - u, a - b);
    Times(u, b - a);
    assert a + u * (b - a) == b + (1.0 - u) * (a - b);
  }

  lemma MixAtMost(t: real, a: real, b: real)
    requires 0.0 <= t && b <= a
    ensures a + t * (b - a) <= a
  {
    Times(t, a - b);
    assert t * (b - a) == -(t * (a - b));
  }

  // ----- the box of an arc -----

  ghost predicate OnCircle(m: Centre, p: Point2) {
    m.Circle? && Dist2(m.c, p) == Square(m.radius)
  }

  /** The points of the circle on the side of the middle point, and the two ends. */
  ghost predicate OnArc(m: Centre, a1: Point2, a2: Point2, a3: Point2, p: Point2) {
    p == a1 || p == a3 || (OnCircle(m, p) && SegmentSide(a1, a3, p) == SegmentSide(a1, a3, a2))
  }

  predicate InBox(b: Box2, p: Point2) {
    b.xmin <= p.x <= b.xmax && b.ymin <= p.y <= b.ymax
  }

  /** p lies on the face of the box in direction k. */
  predicate OnFace(k: int, b: Box2, p: Point2) {
    Along(k, p) == if k == 0 then b.xmin else if k == 1 then -b.xmax else if k == 2 then b.ymin else -b.ymax
  }

  /** The outermost point of a circle in direction k. */
  function Extreme(k: int, c: Point2, r: real): Point2 {
    if k == 0 then Point2(c.x - r, c.y) else if k == 1 then Point2(c.x + r, c.y)
    else if k == 2 then Point2(c.x, c.y - r) else Point2(c.x, c.y + r)
  }

  lemma ExtremeOnCircle(k: int, c: Point2, r: real)
    ensures Dist2(c, Extreme(k, c, r)) == Square(r) && Along(k, Extreme(k, c, r)) == Along(k, c) - r
  {
    hide Square;
    Opposite(r);
    SquareOfZero();
  }

  lemma Bounded(x: real, r: real)
    requires Square(x) <= Square(r) && 0.0 <= r
    ensures -r <= x <= r
  {
    hide Square;
    if r < x { LargerSquare(x, r); }
    if x < -r {
      Opposite(x);
      LargerSquare(-x, r);
    }
  }

  lemma LargerSquare(x: real, r: real)
    requires 0.0 <= r < x
    ensures Square(r) < Square(x)
  {
    hide Square;
    var u, v := x - r, x + r;
    Times(u, v);
    DifferenceOfSquares(x, r, u, v);
  }

  lemma DifferenceOfSquares(x: real, r: real, u: real, v: real)
    requires u == x - r && v == x + r
    ensures u * v == Square(x) - Square(r)
  {
  }

  lemma CircleExtent(k: int, c: Point2, r: real, p: Point2)
    requires Dist2(c, p) == Square(r) && 0.0 <= r
    ensures Along(k, c) - r <= Along(k, p)
  {
    hide Square;
    SquarePositive(c.x - p.x);
    SquarePositive(c.y - p.y);
    Bounded(c.x - p.x, r);
    Bounded(c.y - p.y, r);
  }

  lemma MiddleOffChord(a1: Point2, a2: Point2, a3: Point2)
    ensures Turn(a1, a2, a3) == 2.0 * Side(a1, a3, a2)
  {
  }

  /** The bound in direction k, which the box has as a face. */
  function Bound(m: Centre, a1: Point2, a2: Point2, a3: Point2, k: int): real
    requires m.Circle?
  {
    if SegmentSide(a1, a3, a2) == SegmentSide(a1, a3, Extreme(k, m.c, m.radius)) then Along(k, m.c) - m.radius
    else Min(Along(k, a1), Along(k, a3))
  }

  lemma FacesAreBounds(sqrt: real -> real, a1: Point2, a2: Point2, a3: Point2)
    requires a1 != a3 && ArcCentre(sqrt, a1, a2, a3).Circle?
    ensures var m, b := ArcCentre(sqrt, a1, a2, a3), ArcBounds(sqrt, a1, a2, a3);
            && b.xmin == Bound(m, a1, a2, a3, 0) && -b.xmax == Bound(m, a1, a2, a3, 1)
            && b.ymin == Bound(m, a1, a2, a3, 2) && -b.ymax == Bound(m, a1, a2, a3, 3)
  {
    hide ArcCentre, SegmentSide;
  }

  /** No point of the arc lies beyond the bound, and some point of it lies there. */
  lemma BoundIsTight(sqrt: real -> real, a1: Point2, a2: Point2, a3: Point2, k: int, p: Point2)
    requires IsSqrt(sqrt) && !Closed(a1, a3) && ArcCentre(sqrt, a1, a2, a3).Circle?
    ensures var m := ArcCentre(sqrt, a1, a2, a3);
            && (OnArc(m, a1, a2, a3, p) ==> Bound(m, a1, a2, a3, k) <= Along(k, p))
            && exists q :: OnArc(m, a1, a2, a3, q) && Along(k, q) == Bound(m, a1, a2, a3, k)
  {
    var m := ArcCentre(sqrt, a1, a2, a3);
    MiddleOffChord(a1, a2, a3);
    SignOfZero(Side(a1, a3, a2));
    CentreIsEquidistant(sqrt, a1, a2, a3);
    hide ArcCentre, IsSqrt, Dist2, Square, Side, Sign, Along, Extreme;
    var w := Extreme(k, m.c, m.radius);
    ExtremeOnCircle(k, m.c, m.radius);
    if SegmentSide(a1, a3, a2) == SegmentSide(a1, a3, w) {
      assert OnArc(m, a1, a2, a3, w);
      CircleExtent(k, m.c, m.radius, a1);
      CircleExtent(k, m.c, m.radius, a3);
      if OnCircle(m, p) { CircleExtent(k, m.c, m.radius, p); }
    } else {
      assert OnArc(m, a1, a2, a3, if Along(k, a1) < Along(k, a3) then a1 else a3);
      if OnArc(m, a1, a2, a3, p) && p != a1 && p != a3 {
        CircleExtent(k, m.c, m.radius, p);
        BeyondChord(a1, a3, m.c, p, w, k);
      }
    }
  }

  /** Some point of the arc lies on the face in direction k. */
  ghost predicate Touches(m: Centre, a1: Point2, a2: Point2, a3: Point2, k: int, b: Box2) {
    exists q :: OnArc(m, a1, a2, a3, q) && OnFace(k, b, q)
  }

  lemma InsideBounds(b: Box2, p: Point2)
    requires b.xmin <= Along(0, p) && -b.xmax <= Along(1, p) && b.ymin <= Along(2, p) && -b.ymax <= Along(3, p)
    ensures InBox(b, p)
  {
  }

  lemma TouchesAt(m: Centre, a1: Point2, a2: Point2, a3: Point2, k: int, b: Box2, v: real)
    requires v == if k == 0 then b.xmin else if k == 1 then -b.xmax else if k == 2 then b.ymin else -b.ymax
    requires exists q :: OnArc(m, a1, a2, a3, q) && Along(k, q) == v
    ensures Touches(m, a1, a2, a3, k, b)
  {
    hide OnArc, Along;
    var q :| OnArc(m, a1, a2, a3, q) && Along(k, q) == v;
    assert OnFace(k, b, q);
  }

  /** The box of an arc is the smallest one around it. */
  lemma ArcBoxIsSmallest(sqrt: real -> real, a1: Point2, a2: Point2, a3: Point2, p: Point2)
    requires IsSqrt(sqrt) && !Closed(a1, a3) && ArcCentre(sqrt, a1, a2, a3).Circle?
    ensures var m, b := ArcCentre(sqrt, a1, a2, a3), ArcBounds(sqrt, a1, a2, a3);
            && OnArc(m, a1, a2, a3, a2)
            && (OnArc(m, a1, a2, a3, p) ==> InBox(b, p))
            && forall k :: 0 <= k < 4 ==> Touches(m, a1, a2, a3, k, b)
  {
    hide ArcCentre, IsSqrt, ArcBounds, OnArc, Bound, Along, InBox, Touches, Closed, Dist2, Square;
    CentreIsEquidistant(sqrt, a1, a2, a3);
    EndsDiffer(a1, a3);
    FacesAreBounds(sqrt, a1, a2, a3);
    var m, b := ArcCentre(sqrt, a1, a2, a3), ArcBounds(sqrt, a1, a2, a3);
    MiddleOnArc(m, a1, a2, a3);
    BoundIsTight(sqrt, a1, a2, a3, 0, p);
    BoundIsTight(sqrt, a1, a2, a3, 1, p);
    BoundIsTight(sqrt, a1, a2, a3, 2, p);
    BoundIsTight(sqrt, a1, a2, a3, 3, p);
    if OnArc(m, a1, a2, a3, p) { InsideBounds(b, p); }
    forall k | 0 <= k < 4 ensures Touches(m, a1, a2, a3, k, b) {
      BoundIsTight(sqrt, a1, a2, a3, k, p);
      TouchesAt(m, a1, a2, a3, k, b, Bound(m, a1, a2, a3, k));
    }
  }

  lemma EndsDiffer(a1: Point2, a3: Point2)
    requires !Closed(a1, a3)
    ensures a1 != a3
  {
  }

  lemma MiddleOnArc(m: Centre, a1: Point2, a2: Point2, a3: Point2)
    requires OnCircle(m, a2)
    ensures OnArc(m, a1, a2, a3, a2)
  {
  }

  /** Equal ends make a full circle, with the first two points opposite to each other. */
  lemma FullCircleBox(sqrt: real -> real, a1: Point2, a2: Point2, p: Point2)
    requires IsSqrt(sqrt)
    ensures var m, b := ArcCentre(sqrt, a1, a2, a1), ArcBounds(sqrt, a1, a2, a1);
            && OnCircle(m, a1) && OnCircle(m, a2) && (OnCircle(m, p) ==> InBox(b, p))
            && forall k :: 0 <= k < 4 ==>
                 OnCircle(m, Extreme(k, m.c, m.radius)) && OnFace(k, b, Extreme(k, m.c, m.radius))
  {
    hide Square, IsSqrt, Turn;
    var m, b := ArcCentre(sqrt, a1, a2, a1), ArcBounds(sqrt, a1, a2, a1);
    NearlyClosedCircle(sqrt, a1, a2, a1);
    if OnCircle(m, p) {
      CircleExtent(0, m.c, m.radius, p);
      CircleExtent(1, m.c, m.radius, p);
      CircleExtent(2, m.c, m.radius, p);
      CircleExtent(3, m.c, m.radius, p);
    }
    forall k | 0 <= k < 4
      ensures OnCircle(m, Extreme(k, m.c, m.radius)) && OnFace(k, b, Extreme(k, m.c, m.radius))
    {
      ExtremeOnCircle(k, m.c, m.radius);
    }
  }

  /** Three points on a line have the box of the ends. */
  lemma StraightArcBox(sqrt: real -> real, a1: Point2, a2: Point2, a3: Point2)
    requires !Closed(a1, a3) && Abs(Turn(a1, a2, a3)) < EPSILON_SQLMM
    ensures ArcBounds(sqrt, a1, a2, a3) == Box2(Min(a1.x, a3.x), Max(a1.x, a3.x), Min(a1.y, a3.y), Max(a1.y, a3.y))
  {
    hide Turn, CentreFrom, Dist2, SegmentSide, Closed, Abs;
  }

  /** The middle point of an open arc lies in its box exactly when the arc is not straight or the point
      lies in the box of the ends. */
  lemma MiddleInBox(sqrt: real -> real, a1: Point2, a2: Point2, a3: Point2)
    requires IsSqrt(sqrt) && !Closed(a1, a3)
    ensures InBox(ArcBounds(sqrt, a1, a2, a3), a2) <==>
              || EPSILON_SQLMM <= Abs(Turn(a1, a2, a3))
              || InBox(Box2(Min(a1.x, a3.x), Max(a1.x, a3.x), Min(a1.y, a3.y), Max(a1.y, a3.y)), a2)
  {
    hide ArcBounds, InBox, Turn, Abs, Closed, Min, Max;
    if Abs(Turn(a1, a2, a3)) < EPSILON_SQLMM {
      StraightArcBox(sqrt, a1, a2, a3);
    } else {
      ArcBoxIsSmallest(sqrt, a1, a2, a3, a2);
    }
  }

  // ----- ends that are close but not equal -----

  /** The bound in direction k is the circle's own, or the middle point does not lie beyond both ends. */
  predicate MiddleWithin(m: Centre, a1: Point2, a2: Point2, a3: Point2, k: int)
    requires m.Circle?
  {
    || SegmentSide(a1, a3, a2) == SegmentSide(a1, a3, Extreme(k, m.c, m.radius))
    || Min(Along(k, a1), Along(k, a3)) <= Along(k, a2)
  }

  lemma NearlyClosedCircle(sqrt: real -> real, a1: Point2, a2: Point2, a3: Point2)
    requires IsSqrt(sqrt) && Closed(a1, a3)
    ensures var m := ArcCentre(sqrt, a1, a2, a3);
            && m.Circle? && 0.0 <= m.radius && OnCircle(m, a1) && OnCircle(m, a2)
            && m.c == Point2(a1.x + (a2.x - a1.x) / 2.0, a1.y + (a2.y - a1.y) / 2.0)
  {
    hide Square, IsSqrt, Turn;
    var m := ArcCentre(sqrt, a1, a2, a3);
    Root(sqrt, m.c, a1);
    Opposite(m.c.x - a1.x);
    Opposite(m.c.y - a1.y);
    assert m.c.x - a2.x == -(m.c.x - a1.x) && m.c.y - a2.y == -(m.c.y - a1.y);
  }

  /** Ends that count as equal but are not: the circle has the first two points opposite to each other, and
      the middle one lies in the box exactly when it is within in all four directions. */
  lemma MiddleInNearlyClosedBox(sqrt: real -> real, a1: Point2, a2: Point2, a3: Point2)
    requires IsSqrt(sqrt) && Closed(a1, a3) && a1 != a3
    ensures var m := ArcCentre(sqrt, a1, a2, a3);
            && m.Circle?
            && (InBox(ArcBounds(sqrt, a1, a2, a3), a2) <==>
                  && MiddleWithin(m, a1, a2, a3, 0) && MiddleWithin(m, a1, a2, a3, 1)
                  && MiddleWithin(m, a1, a2, a3, 2) && MiddleWithin(m, a1, a2, a3, 3))
  {
    NearlyClosedCircle(sqrt, a1, a2, a3);
    FacesAreBounds(sqrt, a1, a2, a3);
    hide ArcCentre, ArcBounds, IsSqrt, Closed, Dist2, Square, SegmentSide, Extreme;
    var m := ArcCentre(sqrt, a1, a2, a3);
    CircleExtent(0, m.c, m.radius, a2);
    CircleExtent(1, m.c, m.radius, a2);
    CircleExtent(2, m.c, m.radius, a2);
    CircleExtent(3, m.c, m.radius, a2);
  }

  /** A middle point far from two ends that are close: the box of the arc does not reach it. */
  lemma NearlyClosedArcMissesMiddle(sqrt: real -> real)
    requires IsSqrt(sqrt)
    ensures var a1, a2, a3 := Point2(0.0, 0.0), Point2(6.0, 8.0), Point2(0.000000001, 0.000000002);
            Closed(a1, a3) && a1 != a3 && !InBox(ArcBounds(sqrt, a1, a2, a3), a2)
  {
    hide ArcBounds, ArcCentre, IsSqrt, Square, Dist2;
    var a1, a2, a3 := Point2(0.0, 0.0), Point2(6.0, 8.0), Point2(0.000000001, 0.000000002);
    assert Closed(a1, a3);
    NearlyClosedCircle(sqrt, a1, a2, a3);
    var m := ArcCentre(sqrt, a1, a2, a3);
    assert m.c == Point2(3.0, 4.0);
    RadiusFive(m.radius, m.c, a1);
    assert SegmentSide(a1, a3, a2) == 1 && SegmentSide(a1, a3, Point2(3.0, 9.0)) == -1;
    assert !MiddleWithin(m, a1, a2, a3, 3);
    MiddleInNearlyClosedBox(sqrt, a1, a2, a3);
  }

  lemma RadiusFive(r: real, c: Point2, p: Point2)
    requires 0.0 <= r && Dist2(c, p) == Square(r) && c == Point2(3.0, 4.0) && p == Point2(0.0, 0.0)
    ensures r == 5.0
  {
    assert Square(5.0) == 25.0 && Dist2(c, p) == 25.0;
    hide Square;
    Bounded(r, 5.0);
    Bounded(5.0, r);
  }

  /** The middle point of a straight arc need not lie in its box. */
  lemma StraightArcMissesMiddle(sqrt: real -> real)
    ensures var a1, a2, a3 := Point2(0.0, 0.0), Point2(5.0, 5.0), Point2(1.0, 1.0);
            !InBox(ArcBounds(sqrt, a1, a2, a3), a2)
  {
    hide ArcBounds, Turn;
    var a1, a2, a3 := Point2(0.0, 0.0), Point2(5.0, 5.0), Point2(1.0, 1.0);
    DiagonalTurn(a1, a2, a3);
    StraightArcBox(sqrt, a1, a2, a3);
  }

  lemma DiagonalTurn(p1: Point2, p2: Point2, p3: Point2)
    requires p1.x == p1.y && p2.x == p2.y && p3.x == p3.y
    ensures Turn(p1, p2, p3) == 0.0
  {
    SameProduct(p2.x - p1.x, p3.x - p1.x);
  }

  lemma SameProduct(x: real, y: real)
    ensures Cross(x, x, y, y) == 0.0
  {
  }
}
