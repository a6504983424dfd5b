/** One split in the adaptive cover of a rectangle by quadtree cells, GetIntersectHash of
    geogridcoder/UGGeoHash.cpp, and the list of cells that splits make. */
module QuadCover {
  import opened Arith
  import opened QuadKeys
  import opened QuadCells

  const PERCENTAGE := 100.0

  /** A cell and the part of the query in it (QueryParameter). */
  datatype Query = Query(cell: Cell, rect: Rect, percentage: real, query: Rect)

  /** A rectangle that is not turned inside out. It may be a segment or a point. */
  ghost predicate Proper(r: Rect) {
    r.left <= r.right && r.bottom <= r.top
  }

  function Max(a: real, b: real): real { if a > b then a else b }

  function Min(a: real, b: real): real { if a > b then b else a }

  /** UGGeoHash::IsIntersect. */
  predicate IsIntersect(r: Rect, s: Rect) {
    r.right > s.left && r.left < s.right && r.top > s.bottom && r.bottom < s.top
  }

  /** The rectangle that YkRect2D::IntersectRect computes for rectangles that intersect. */
  function IntersectRect(r: Rect, s: Rect): Rect {
    Rect(Max(r.left, s.left), Max(r.bottom, s.bottom), Min(r.right, s.right), Min(r.top, s.top))
  }

  predicate NearZero(x: real) {
    -EP < x < EP
  }

  function Abs(x: real): real { if x >= 0.0 then x else -x }

  /** ykequal: equal up to a share of the larger value, values near zero being all the same. */
  predicate YkEqual(x: real, y: real) {
    if NearZero(x) || NearZero(y) then NearZero(x) && NearZero(y)
    else var m := Max(Abs(x), Abs(y)); m * -EP <= x - y <= m * EP
  }

  /** YkRect2D::IsIntersect, which allows for that tolerance. */
  predicate NearIntersect(r: Rect, s: Rect) {
    && (r.right > s.left || YkEqual(r.right, s.left)) && (r.left < s.right || YkEqual(r.left, s.right))
    && (r.top > s.bottom || YkEqual(r.top, s.bottom)) && (r.bottom < s.top || YkEqual(r.bottom, s.top))
  }

  /** YkRect2D::IntersectRect: r cut down to s, or r itself when the two do not intersect. */
  function CutDown(r: Rect, s: Rect): Rect {
    if NearIntersect(r, s) then IntersectRect(r, s) else r
  }

  /** Rectangles that meet, or whose common part is not turned inside out, are cut down. */
  lemma CutsDown(r: Rect, s: Rect)
    ensures IsIntersect(s, r) || IsIntersect(r, s) ==> CutDown(r, s) == IntersectRect(r, s)
    ensures Proper(r) && Proper(s) && Proper(IntersectRect(r, s)) ==> CutDown(r, s) == IntersectRect(r, s)
  {
    YkEqualItself(r.right, s.left);
    YkEqualItself(r.left, s.right);
    YkEqualItself(r.top, s.bottom);
    YkEqualItself(r.bottom, s.top);
    hide YkEqual;
  }

  lemma YkEqualItself(x: real, y: real)
    ensures x == y ==> YkEqual(x, y)
  {
  }

  /** YkRect2D::Contains, which allows for a tolerance. */
  predicate Contains(r: Rect, s: Rect) {
    && (s.left > r.left || NearZero(s.left - r.left)) && (s.top < r.top || NearZero(s.top - r.top))
    && (s.right < r.right || NearZero(s.right - r.right)) && (s.bottom > r.bottom || NearZero(s.bottom - r.bottom))
  }

  function Area(r: Rect): real {
    r.Width() * r.Height()
  }

  /** The share in percent of a rectangle a by b in one w by h. */
  function Share(a: real, b: real, w: real, h: real): real
    requires 0.0 < w && 0.0 < h
  {
    a * b * 100.0 / w / h
  }

  function Percent(query: Rect, rect: Rect): real
    requires rect.Positive()
  {
    Share(query.Width(), query.Height(), rect.Width(), rect.Height())
  }

  // ----- one split -----

  function Child(q: Query, digit: int): seq<Query>
    requires q.rect.Positive() && 0 <= digit < 4
  {
    var rc := Quarter(q.rect, digit);
    QuarterFits(q.rect, digit, digit);
    if IsIntersect(q.query, rc) then
      var part := IntersectRect(rc, q.query);
      [Query(Cell(4 * q.cell.number + digit, q.cell.level + 1), rc, Percent(part, rc), part)]
    else []
  }

  /** The quarters that the query meets, in the order in which they are tried. */
  function Children(q: Query): (s: seq<Query>)
    requires q.rect.Positive()
    ensures |s| <= 4
  {
    if q.percentage >= 100.0 then [] else Child(q, 0) + Child(q, 2) + Child(q, 1) + Child(q, 3)
  }

  /** A percentage is a hundred times the share of the area. */
  lemma PercentIsShare(query: Rect, rect: Rect)
    requires rect.Positive()
    ensures Percent(query, rect) * (rect.Width() * rect.Height()) == 100.0 * (query.Width() * query.Height())
  {
    ShareTimes(query.Width() * query.Height() * 100.0, rect.Width(), rect.Height());
  }

  lemma ShareTimes(x: real, w: real, h: real)
    requires 0.0 < w && 0.0 < h
    ensures x / w / h * (w * h) == x
  {
    var u := x / w;
    DivideTimes(x, w);
    DivideTimes(u, h);
    assert u / h * (w * h) == u / h * h * w;
  }

  /** The quarters stand in the order from the bottom up and from left to right. */
  lemma ChildrenInOrder(q: Query, j: nat, k: nat)
    requires q.rect.Positive() && j < k < |Children(q)|
    ensures var r, s := Children(q)[j].rect, Children(q)[k].rect;
            r.bottom < s.bottom || (r.bottom == s.bottom && r.left < s.left)
  {
    hide Percent, IntersectRect, IsIntersect;
  }

  /** A quarter is among them exactly when the query meets it, with its number, level, rectangle and part of
      the query. */
  lemma ChildrenAreMet(q: Query, d: int)
    requires q.rect.Positive() && q.percentage < 100.0 && 0 <= d < 4
    ensures var rc := Quarter(q.rect, d);
            && rc.Positive()
            && ((exists k :: 0 <= k < |Children(q)| && Children(q)[k].cell.number == 4 * q.cell.number + d) <==>
                 IsIntersect(q.query, rc))
            && forall k :: 0 <= k < |Children(q)| && Children(q)[k].cell.number == 4 * q.cell.number + d ==>
                 var part := IntersectRect(rc, q.query);
                 Children(q)[k] == Query(Cell(4 * q.cell.number + d, q.cell.level + 1), rc, Percent(part, rc), part)
  {
    QuarterFits(q.rect, d, d);
    hide Percent, IntersectRect, IsIntersect, Quarter;
    var kids := Children(q);
    assert kids == Child(q, 0) + Child(q, 2) + Child(q, 1) + Child(q, 3);
    if IsIntersect(q.query, Quarter(q.rect, d)) {
      var before := if d == 0 then 0 else if d == 2 then |Child(q, 0)| else if d == 1 then |Child(q, 0) + Child(q, 2)|
                    else |Child(q, 0) + Child(q, 2) + Child(q, 1)|;
      assert kids[before] == Child(q, d)[0];
    }
  }

  method GetIntersectHash(q: Query) returns (rest: seq<Query>)
    requires q.rect.Positive()
    ensures rest == Children(q)
  {
    hide Percent, IntersectRect, IsIntersect, CutDown, Proper;
    rest := [];
    if q.percentage >= 100.0 { return; }
    var cx, cy := (q.rect.left + q.rect.right) / 2.0, (q.rect.top + q.rect.bottom) / 2.0;
    var level := q.cell.level + 1;
    var rc := Rect(q.rect.left, q.rect.bottom, cx, cy);
    if IsIntersect(q.query, rc) {
      var key := 4 * q.cell.number;
      CutsDown(rc, q.query);
      var part := CutDown(rc, q.query);
      rest := rest + [Query(Cell(key, level), rc, Percent(part, rc), part)];
    }
    assert rest == Child(q, 0);
    rc := Rect(cx, q.rect.bottom, q.rect.right, cy);
    if IsIntersect(q.query, rc) {
      var key := 2 * q.cell.number;
      key := 2 * (key + 1);
      CutsDown(rc, q.query);
      var part := CutDown(rc, q.query);
      rest := rest + [Query(Cell(key, level), rc, Percent(part, rc), part)];
    }
    assert rest == Child(q, 0) + Child(q, 2);
    rc := Rect(q.rect.left, cy, cx, q.rect.top);
    if IsIntersect(q.query, rc) {
      var key := 2 * (2 * q.cell.number);
      key := key + 1;
      CutsDown(rc, q.query);
      var part := CutDown(rc, q.query);
      rest := rest + [Query(Cell(key, level), rc, Percent(part, rc), part)];
    }
    assert rest == Child(q, 0) + Child(q, 2) + Child(q, 1);
    rc := Rect(cx, cy, q.rect.right, q.rect.top);
    if IsIntersect(q.query, rc) {
      var key := 2 * (2 * q.cell.number + 1);
      key := key + 1;
      CutsDown(rc, q.query);
      var part := CutDown(rc, q.query);
      rest := rest + [Query(Cell(key, level), rc, Percent(part, rc), part)];
    }
  }

  /** What every entry of the list satisfies: its rectangle is that of its cell, and its part of the
      query is the overlap. The first entry may hold the query without meeting it. */
  ghost predicate Sound(bounds: Rect, area: Rect, q: Query) {
    && q.cell.number < Pow4(q.cell.level)
    && q.rect == RectOf(bounds, q.cell) && q.rect.Positive()
    && q.query == IntersectRect(q.rect, area) && Proper(q.query)
    && (IsIntersect(area, q.rect) || Within(area, q.rect))
    && q.percentage == Percent(q.query, q.rect)
  }

  lemma ChildSound(bounds: Rect, area: Rect, q: Query, digit: int)
    requires bounds.Positive() && Sound(bounds, area, q) && 0 <= digit < 4
    ensures forall k :: 0 <= k < |Child(q, digit)| ==> Sound(bounds, area, Child(q, digit)[k])
    ensures forall k :: 0 <= k < |Child(q, digit)| ==> Within(Child(q, digit)[k].rect, q.rect)
    ensures forall k :: 0 <= k < |Child(q, digit)| ==> Child(q, digit)[k].cell.level == q.cell.level + 1
    ensures forall k :: 0 <= k < |Child(q, digit)| ==> Child(q, digit)[k].rect == Quarter(q.rect, digit)
  {
    hide Quarter, Percent;
    QuarterFits(q.rect, digit, digit);
    ChildRect(bounds, q.cell, digit);
    OverlapInside(q.rect, area, Quarter(q.rect, digit));
  }

  lemma ChildRect(bounds: Rect, c: Cell, digit: int)
    requires 0 <= digit < 4 && c.number < Pow4(c.level)
    ensures RectOf(bounds, Cell(4 * c.number + digit, c.level + 1)) == Quarter(RectOf(bounds, c), digit)
    ensures 4 * c.number + digit < Pow4(c.level + 1)
  {
    hide Quarter;
  }

  /** Inside a part of a rectangle, the query can be cut down to the rectangle first. */
  lemma OverlapInside(r: Rect, area: Rect, s: Rect)
    requires Within(s, r) && s.Positive()
    ensures IntersectRect(s, IntersectRect(r, area)) == IntersectRect(s, area)
    ensures IsIntersect(IntersectRect(r, area), s) <==> IsIntersect(area, s)
    ensures Proper(IntersectRect(r, area)) && IsIntersect(area, s) ==> Proper(IntersectRect(s, area))
  {
  }

  // ----- areas -----

  function Sum(s: seq<Query>): real {
    if s == [] then 0.0 else Area(s[0].query) + Sum(s[1..])
  }

  lemma {:induction false} SumBoth(s: seq<Query>, t: seq<Query>)
    ensures Sum(s + t) == Sum(s) + Sum(t)
  {
    hide Area;
    if s == [] {
      assert s + t == t;
    } else {
      SumBoth(s[1..], t);
      assert (s + t)[1..] == s[1..] + t;
    }
  }

  /** The length that two intervals share. */
  function Shared(a: real, b: real, c: real, d: real): real {
    var l, r := Max(a, c), Min(b, d);
    if l < r then r - l else 0.0
  }

  lemma SharedHalves(l: real, r: real, c: real, a: real, b: real)
    requires l < c < r && l <= a <= b <= r
    ensures Shared(a, b, l, c) + Shared(a, b, c, r) == b - a
  {
  }

  lemma Products(a: real, b: real, c: real, d: real)
    ensures a * c + b * c + a * d + b * d == (a + b) * (c + d)
  {
  }

  lemma ChildArea(q: Query, digit: int)
    requires q.rect.Positive() && Proper(q.query) && 0 <= digit < 4
    ensures var rc := Quarter(q.rect, digit);
            Sum(Child(q, digit)) == Shared(q.query.left, q.query.right, rc.left, rc.right)
                                  * Shared(q.query.bottom, q.query.top, rc.bottom, rc.top)
  {
    hide Percent, Quarter;
    var rc := Quarter(q.rect, digit);
    QuarterFits(q.rect, digit, digit);
    if IsIntersect(q.query, rc) {
      SumOfOne(Child(q, digit));
    } else {
      Nothing(Shared(q.query.left, q.query.right, rc.left, rc.right),
              Shared(q.query.bottom, q.query.top, rc.bottom, rc.top));
    }
  }

  lemma SumOfOne(s: seq<Query>)
    requires |s| == 1
    ensures Sum(s) == Area(s[0].query)
  {
    assert s[1..] == [];
  }

  lemma Nothing(a: real, b: real)
    requires a == 0.0 || b == 0.0
    ensures a * b == 0.0
  {
  }

  /** A split loses no area. */
  lemma SplitKeepsArea(q: Query)
    requires q.rect.Positive() && Proper(q.query) && Within(q.query, q.rect) && q.percentage < 100.0
    ensures Sum(Children(q)) == Area(q.query)
  {
    hide Child, Shared, Sum;
    var r, p := q.rect, q.query;
    var cx, cy := (r.left + r.right) / 2.0, (r.top + r.bottom) / 2.0;
    ChildArea(q, 0);
    ChildArea(q, 1);
    ChildArea(q, 2);
    ChildArea(q, 3);
    SharedHalves(r.left, r.right, cx, p.left, p.right);
    SharedHalves(r.bottom, r.top, cy, p.bottom, p.top);
    var a, b := Shared(p.left, p.right, r.left, cx), Shared(p.left, p.right, cx, r.right);
    var c, d := Shared(p.bottom, p.top, r.bottom, cy), Shared(p.bottom, p.top, cy, r.top);
    Products(a, b, c, d);
    SumBoth(Child(q, 0), Child(q, 2));
    SumBoth(Child(q, 0) + Child(q, 2), Child(q, 1));
    SumBoth(Child(q, 0) + Child(q, 2) + Child(q, 1), Child(q, 3));
  }

  // ----- grid lines -----

  /** x is an end of one of the 2^n equal parts of the interval. */
  ghost predicate OnGrid(lo: real, hi: real, x: real, n: nat)
    decreases n
  {
    if n == 0 then x == lo || x == hi
    else var mid := (lo + hi) / 2.0; OnGrid(lo, mid, x, n - 1) || OnGrid(mid, hi, x, n - 1)
  }

  /** A segment or point that runs along a grid line of level n of the rectangle. */
  ghost predicate AlongGrid(r: Rect, area: Rect, n: nat) {
    || (area.left == area.right && OnGrid(r.left, r.right, area.left, n))
    || (area.bottom == area.top && OnGrid(r.bottom, r.top, area.bottom, n))
  }

  lemma FirstLines(lo: real, hi: real, x: real)
    ensures OnGrid(lo, hi, x, 1) <==> x == lo || x == (lo + hi) / 2.0 || x == hi
  {
    assert forall a, b :: OnGrid(a, b, x, 0) <==> x == a || x == b;
  }

  /** When the part [a, b] of an interval meets neither half. */
  lemma MissesBoth(lo: real, hi: real, a: real, b: real)
    requires lo < hi && lo <= a <= b <= hi
    ensures var mid := (lo + hi) / 2.0;
            !(lo < b && a < mid) && !(mid < b && a < hi) <==> a == b && a in {lo, mid, hi}
  {
  }

  /** A split loses a query exactly when it is a segment or point along a side of the cell or along a
      split line. */
  lemma SplitLosesQuery(q: Query)
    requires q.rect.Positive() && Proper(q.query) && Within(q.query, q.rect) && q.percentage < 100.0
    ensures var r, p := q.rect, q.query;
            Children(q) == [] <==> || (p.left == p.right && p.left in {r.left, (r.left + r.right) / 2.0, r.right})
                                   || (p.bottom == p.top && p.bottom in {r.bottom, (r.top + r.bottom) / 2.0, r.top})
    ensures Children(q) == [] <==> AlongGrid(q.rect, q.query, 1)
  {
    hide Percent, IntersectRect, OnGrid;
    var r, p := q.rect, q.query;
    MissesBoth(r.left, r.right, p.left, p.right);
    MissesBoth(r.bottom, r.top, p.bottom, p.top);
    FirstLines(r.left, r.right, p.left);
    FirstLines(r.bottom, r.top, p.bottom);
  }

  /** A part of the bounds that cutting has turned inside out: the query lies beyond an edge. */
  ghost predicate BeyondEdge(bounds: Rect, area: Rect) {
    || (area.right < area.left && (area.right == bounds.right || area.left == bounds.left))
    || (area.top < area.bottom && (area.top == bounds.top || area.bottom == bounds.bottom))
  }

  /** What the cut of a proper query leaves. */
  lemma CutLeaves(bounds: Rect, geo: Rect)
    requires bounds.Positive() && Proper(geo)
    ensures var area := CutDown(bounds, geo); if Proper(area) then Within(area, bounds) else BeyondEdge(bounds, area)
  {
    hide NearIntersect;
  }

  /** Beyond an edge no quarter is met. */
  lemma BeyondMeetsNone(q: Query)
    requires q.rect.Positive() && BeyondEdge(q.rect, q.query)
    ensures Children(q) == []
  {
    hide Percent, IntersectRect;
  }

  // ----- coverage -----

  ghost predicate CoveredBy(s: seq<Query>, p: Pt) {
    exists k :: 0 <= k < |s| && In(p, s[k].query)
  }

  lemma CoveredByMore(s: seq<Query>, t: seq<Query>, p: Pt)
    ensures CoveredBy(s + t, p) <==> CoveredBy(s, p) || CoveredBy(t, p)
  {
    hide In;
    if CoveredBy(s, p) {
      var k :| 0 <= k < |s| && In(p, s[k].query);
      assert (s + t)[k] == s[k];
    }
    if CoveredBy(t, p) {
      var k :| 0 <= k < |t| && In(p, t[k].query);
      assert (s + t)[|s| + k] == t[k];
    }
    if CoveredBy(s + t, p) {
      var k :| 0 <= k < |s + t| && In(p, (s + t)[k].query);
      if k < |s| { assert (s + t)[k] == s[k]; } else { assert (s + t)[k] == t[k - |s|]; }
    }
  }

  /** The quarter whose part of the query contains the point. */
  lemma QuarterOfPoint(q: Query, p: Pt) returns (digit: int)
    requires q.rect.Positive() && Proper(q.query) && Within(q.query, q.rect) && In(p, q.query)
    requires !AlongGrid(q.rect, q.query, 1)
    ensures 0 <= digit < 4 && CoveredBy(Child(q, digit), p)
  {
    hide Percent, OnGrid;
    FirstLines(q.rect.left, q.rect.right, q.query.left);
    FirstLines(q.rect.bottom, q.rect.top, q.query.bottom);
    var cx, cy := (q.rect.left + q.rect.right) / 2.0, (q.rect.top + q.rect.bottom) / 2.0;
    var right := if p.x <= cx && q.query.left < cx then 0 else 2;
    var upper := if p.y <= cy && q.query.bottom < cy then 0 else 1;
    digit := right + upper;
    assert |Child(q, digit)| == 1;
    assert In(p, Child(q, digit)[0].query);
  }

  /** A split that does not lose the query covers every point that was covered. */
  lemma SplitCovers(q: Query, p: Pt)
    requires q.rect.Positive() && Proper(q.query) && Within(q.query, q.rect) && q.percentage < 100.0
    requires In(p, q.query)
    ensures CoveredBy(Children(q), p) <==> Children(q) != []
  {
    hide Child, CoveredBy, AlongGrid;
    SplitLosesQuery(q);
    if Children(q) == [] {
      NoneCovers(p);
      return;
    }
    var digit := QuarterOfPoint(q, p);
    CoveredByMore(Child(q, 0), Child(q, 2), p);
    CoveredByMore(Child(q, 0) + Child(q, 2), Child(q, 1), p);
    CoveredByMore(Child(q, 0) + Child(q, 2) + Child(q, 1), Child(q, 3), p);
  }

  lemma NoneCovers(p: Pt)
    ensures !CoveredBy([], p)
  {
  }

  // ----- the list of cells -----

  ghost predicate AllSound(bounds: Rect, area: Rect, s: seq<Query>) {
    forall k :: 0 <= k < |s| ==> Sound(bounds, area, s[k])
  }

  /** No two cells share an interior point. */
  ghost predicate Separate(s: seq<Query>) {
    forall j, k :: 0 <= j < k < |s| ==> Apart(s[j].rect, s[k].rect)
  }

  ghost predicate Covers(s: seq<Query>, area: Rect) {
    forall p :: In(p, area) ==> CoveredBy(s, p)
  }

  /** The cells of the list are a partition of the query. */
  ghost predicate Partition(bounds: Rect, area: Rect, s: seq<Query>) {
    AllSound(bounds, area, s) && Separate(s) && Covers(s, area) && Sum(s) == Area(area)
  }

  lemma AllSoundBoth(bounds: Rect, area: Rect, s: seq<Query>, t: seq<Query>)
    ensures AllSound(bounds, area, s + t) <==> AllSound(bounds, area, s) && AllSound(bounds, area, t)
  {
    hide Sound;
    assert forall k :: 0 <= k < |s| ==> (s + t)[k] == s[k];
    assert forall k :: 0 <= k < |t| ==> (s + t)[|s| + k] == t[k];
    assert forall k :: |s| <= k < |s + t| ==> (s + t)[k] == t[k - |s|];
  }

  ghost predicate ApartFrom(r: Rect, s: seq<Query>) {
    forall k :: 0 <= k < |s| ==> Apart(r, s[k].rect)
  }

  ghost predicate AllApart(s: seq<Query>, t: seq<Query>) {
    forall j, k :: 0 <= j < |s| && 0 <= k < |t| ==> Apart(s[j].rect, t[k].rect)
  }

  lemma SeparateBoth(s: seq<Query>, t: seq<Query>)
    ensures Separate(s + t) <==> Separate(s) && Separate(t) && AllApart(s, t)
  {
    hide Apart;
    var u := s + t;
    assert forall k :: 0 <= k < |s| ==> u[k] == s[k];
    assert forall k :: |s| <= k < |u| ==> u[k] == t[k - |s|];
    if Separate(u) {
      forall j, k | 0 <= j < k < |s| ensures Apart(s[j].rect, s[k].rect) { assert u[j] == s[j] && u[k] == s[k]; }
      forall j, k | 0 <= j < k < |t| ensures Apart(t[j].rect, t[k].rect) {
        assert u[|s| + j] == t[j] && u[|s| + k] == t[k];
      }
      forall j, k | 0 <= j < |s| && 0 <= k < |t| ensures Apart(s[j].rect, t[k].rect) {
        assert u[j] == s[j] && u[|s| + k] == t[k];
      }
    }
  }

  /** All rectangles lie in r and all cells are one level below q. */
  ghost predicate Inside(s: seq<Query>, q: Query) {
    forall k :: 0 <= k < |s| ==> Within(s[k].rect, q.rect) && s[k].cell.level == q.cell.level + 1
  }

  lemma InsideBoth(s: seq<Query>, t: seq<Query>, q: Query)
    requires Inside(s, q) && Inside(t, q)
    ensures Inside(s + t, q)
  {
    hide Within;
    assert forall k :: |s| <= k < |s + t| ==> (s + t)[k] == t[k - |s|];
  }

  lemma QuartersApart(bounds: Rect, area: Rect, q: Query, d: int, e: int)
    requires bounds.Positive() && Sound(bounds, area, q) && 0 <= d < 4 && 0 <= e < 4 && d != e
    ensures AllApart(Child(q, d), Child(q, e))
  {
    hide Quarter, Percent, IntersectRect;
    QuarterFits(q.rect, d, e);
  }

  lemma OneChild(q: Query, d: int)
    requires q.rect.Positive() && 0 <= d < 4
    ensures |Child(q, d)| <= 1 && Separate(Child(q, d))
  {
  }

  lemma ApartToBoth(s: seq<Query>, t: seq<Query>, u: seq<Query>)
    requires AllApart(s, u) && AllApart(t, u)
    ensures AllApart(s + t, u)
  {
    hide Apart;
    assert forall k :: |s| <= k < |s + t| ==> (s + t)[k] == t[k - |s|];
  }

  lemma ChildInside(bounds: Rect, area: Rect, q: Query, d: int)
    requires bounds.Positive() && Sound(bounds, area, q) && 0 <= d < 4
    ensures AllSound(bounds, area, Child(q, d)) && Inside(Child(q, d), q)
  {
    hide Sound, Child, Within;
    ChildSound(bounds, area, q, d);
  }

  /** The children of a cell are sound, apart from each other, and inside it. */
  lemma ChildrenFit(bounds: Rect, area: Rect, q: Query)
    requires bounds.Positive() && Sound(bounds, area, q) && q.percentage < 100.0
    ensures AllSound(bounds, area, Children(q)) && Inside(Children(q), q)
  {
    hide Child, Sound, AllSound, Inside;
    QueryFits(bounds, area, q);
    ChildInside(bounds, area, q, 0);
    ChildInside(bounds, area, q, 1);
    ChildInside(bounds, area, q, 2);
    ChildInside(bounds, area, q, 3);
    var a, b, c, d := Child(q, 0), Child(q, 2), Child(q, 1), Child(q, 3);
    AllSoundBoth(bounds, area, a, b);
    AllSoundBoth(bounds, area, a + b, c);
    AllSoundBoth(bounds, area, a + b + c, d);
    InsideBoth(a, b, q);
    InsideBoth(a + b, c, q);
    InsideBoth(a + b + c, d, q);
  }

  lemma QueryFits(bounds: Rect, area: Rect, q: Query)
    requires Sound(bounds, area, q)
    ensures q.rect.Positive() && Proper(q.query) && Within(q.query, q.rect)
  {
    hide RectOf, Percent;
  }

  lemma ChildrenSeparate(bounds: Rect, area: Rect, q: Query)
    requires bounds.Positive() && Sound(bounds, area, q) && q.percentage < 100.0
    ensures Separate(Children(q))
  {
    hide Child, Sound, Separate, AllApart;
    QueryFits(bounds, area, q);
    var a, b, c, d := Child(q, 0), Child(q, 2), Child(q, 1), Child(q, 3);
    OneChild(q, 0);
    OneChild(q, 1);
    OneChild(q, 2);
    OneChild(q, 3);
    QuartersApart(bounds, area, q, 0, 2);
    QuartersApart(bounds, area, q, 0, 1);
    QuartersApart(bounds, area, q, 0, 3);
    QuartersApart(bounds, area, q, 2, 1);
    QuartersApart(bounds, area, q, 2, 3);
    QuartersApart(bounds, area, q, 1, 3);
    ApartToBoth(a, b, c);
    ApartToBoth(a, b, d);
    ApartToBoth(a + b, c, d);
    SeparateBoth(a, b);
    SeparateBoth(a + b, c);
    SeparateBoth(a + b + c, d);
  }

  /** Taking one entry out. */
  lemma WithoutOne(bounds: Rect, area: Rect, s: seq<Query>, n: nat)
    requires n < |s| && AllSound(bounds, area, s) && Separate(s)
    ensures var others := s[..n] + s[n + 1..];
            && AllSound(bounds, area, others) && Separate(others) && ApartFrom(s[n].rect, others)
            && Sum(s) == Sum(others) + Area(s[n].query) && Sound(bounds, area, s[n])
  {
    hide Sound, Separate, AllApart, Area, ApartFrom;
    var q, front, back := s[n], s[..n], s[n + 1..];
    assert s == front + ([q] + back);
    SumBoth(front, [q] + back);
    SumBoth([q], back);
    SumOfOne([q]);
    SumBoth(front, back);
    AllSoundBoth(bounds, area, front, [q] + back);
    AllSoundBoth(bounds, area, [q], back);
    AllSoundBoth(bounds, area, front, back);
    SeparateBoth(front, [q] + back);
    SeparateBoth([q], back);
    SeparateBoth(front, back);
    Around(front, q, back);
  }

  lemma Around(front: seq<Query>, q: Query, back: seq<Query>)
    requires AllApart(front, [q] + back) && AllApart([q], back)
    ensures AllApart(front, back) && ApartFrom(q.rect, front + back)
  {
    var u := [q] + back;
    assert forall k :: 0 <= k < |back| ==> u[k + 1] == back[k];
    forall j, k | 0 <= j < |front| && 0 <= k < |back| ensures Apart(front[j].rect, back[k].rect) {
      assert u[k + 1] == back[k];
    }
    forall k | 0 <= k < |front + back| ensures Apart(q.rect, (front + back)[k].rect) {
      if k < |front| {
        assert Apart(front[k].rect, u[0].rect);
      } else {
        assert Apart([q][0].rect, back[k - |front|].rect);
      }
    }
  }

  lemma InsideStaysApart(others: seq<Query>, q: Query, kids: seq<Query>, bounds: Rect, area: Rect)
    requires ApartFrom(q.rect, others) && Inside(kids, q) && AllSound(bounds, area, kids) && q.rect.Positive()
    ensures AllApart(others, kids)
  {
    hide RectOf, Percent, IntersectRect;
    forall j, k | 0 <= j < |others| && 0 <= k < |kids| ensures Apart(others[j].rect, kids[k].rect) {
      assert Sound(bounds, area, kids[k]);
    }
  }

  lemma CoveredWithout(s: seq<Query>, n: nat, p: Pt)
    requires n < |s|
    ensures CoveredBy(s, p) <==> CoveredBy(s[..n] + s[n + 1..], p) || In(p, s[n].query)
  {
    hide In, CoveredBy;
    var q, front, back := s[n], s[..n], s[n + 1..];
    assert s == front + ([q] + back);
    CoveredByMore(front, [q] + back, p);
    CoveredByMore([q], back, p);
    CoveredByMore(front, back, p);
    CoveredByOne(q, p);
  }

  lemma CoveredByOne(q: Query, p: Pt)
    ensures CoveredBy([q], p) <==> In(p, q.query)
  {
    if In(p, q.query) { assert In(p, [q][0].query); }
  }

  /** Replacing a cell by its children keeps the partition, unless there are none. */
  lemma SplitKeepsPartition(bounds: Rect, area: Rect, s: seq<Query>, n: nat)
    requires bounds.Positive() && n < |s| && Partition(bounds, area, s) && s[n].percentage < 100.0
    ensures Sound(bounds, area, s[n]) && Inside(Children(s[n]), s[n])
    ensures Children(s[n]) != [] ==> Partition(bounds, area, s[..n] + s[n + 1..] + Children(s[n]))
  {
    hide Sound, AllSound, Separate, Children, Area, Sum, In, CoveredBy, Inside, ApartFrom, AllApart;
    var q, others := s[n], s[..n] + s[n + 1..];
    WithoutOne(bounds, area, s, n);
    QueryFits(bounds, area, q);
    var kids := Children(q);
    ChildrenFit(bounds, area, q);
    ChildrenSeparate(bounds, area, q);
    SplitKeepsArea(q);
    SumBoth(others, kids);
    AllSoundBoth(bounds, area, others, kids);
    InsideStaysApart(others, q, kids, bounds, area);
    SeparateBoth(others, kids);
    if kids != [] {
      forall p | In(p, area) ensures CoveredBy(others + kids, p) {
        CoveredWithout(s, n, p);
        if In(p, q.query) { SplitCovers(q, p); }
        CoveredByMore(others, kids, p);
      }
    }
  }
}
