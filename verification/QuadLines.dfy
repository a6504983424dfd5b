/** Queries without area in the splitting loop of geogridcoder/UGGeoHash.cpp: the grid lines along which
    a split loses them, the cells they meet, and the order in which their cells are split. */
module QuadLines {
  import opened QuadCells
  import opened QuadCover

  // ----- grid lines of finer levels -----

  lemma {:induction false} OnGridInside(lo: real, hi: real, x: real, n: nat)
    requires lo < hi && OnGrid(lo, hi, x, n)
    ensures lo <= x <= hi
    decreases n
  {
    if 0 < n {
      var mid := (lo + hi) / 2.0;
      if OnGrid(lo, mid, x, n - 1) { OnGridInside(lo, mid, x, n - 1); } else { OnGridInside(mid, hi, x, n - 1); }
    }
  }

  lemma {:induction false} OnFinerGrid(lo: real, hi: real, x: real, n: nat)
    requires OnGrid(lo, hi, x, n)
    ensures OnGrid(lo, hi, x, n + 1)
    decreases n
  {
    if n == 0 {
      FirstLines(lo, hi, x);
    } else {
      var mid := (lo + hi) / 2.0;
      if OnGrid(lo, mid, x, n - 1) { OnFinerGrid(lo, mid, x, n - 1); } else { OnFinerGrid(mid, hi, x, n - 1); }
    }
  }

  lemma FinerGrid(r: Rect, area: Rect, m: nat, n: nat)
    requires AlongGrid(r, area, m) && m <= n
    ensures AlongGrid(r, area, n)
    decreases n
  {
    if m < n {
      FinerGrid(r, area, m, n - 1);
      if area.left == area.right && OnGrid(r.left, r.right, area.left, n - 1) {
        OnFinerGrid(r.left, r.right, area.left, n - 1);
      } else {
        OnFinerGrid(r.bottom, r.top, area.bottom, n - 1);
      }
    }
  }

  lemma HalfGrid(lo: real, hi: real, x: real, n: nat)
    requires lo < hi
    ensures var mid := (lo + hi) / 2.0;
            && (lo < x < mid ==> (OnGrid(lo, hi, x, n + 1) <==> OnGrid(lo, mid, x, n)))
            && (mid < x < hi ==> (OnGrid(lo, hi, x, n + 1) <==> OnGrid(mid, hi, x, n)))
  {
    var mid := (lo + hi) / 2.0;
    if OnGrid(lo, mid, x, n) { OnGridInside(lo, mid, x, n); }
    if OnGrid(mid, hi, x, n) { OnGridInside(mid, hi, x, n); }
  }

  /** Inside a quarter that the query meets, the lines of level n are those of level n + 1 around it. */
  lemma QuarterGrid(r: Rect, area: Rect, d: int, n: nat)
    requires r.Positive() && 0 <= d < 4 && IsIntersect(area, Quarter(r, d))
    ensures AlongGrid(Quarter(r, d), area, n) <==> AlongGrid(r, area, n + 1)
  {
    hide OnGrid;
    HalfGrid(r.left, r.right, area.left, n);
    HalfGrid(r.bottom, r.top, area.bottom, n);
  }

  /** The lines of a cell are those of the whole index in its place. */
  ghost predicate Lined(bounds: Rect, area: Rect, q: Query) {
    forall n: nat :: AlongGrid(q.rect, area, n) <==> AlongGrid(bounds, area, q.cell.level + n)
  }

  ghost predicate AllLined(bounds: Rect, area: Rect, s: seq<Query>) {
    forall k :: 0 <= k < |s| ==> Lined(bounds, area, s[k])
  }

  lemma AllLinedBoth(bounds: Rect, area: Rect, s: seq<Query>, t: seq<Query>)
    ensures AllLined(bounds, area, s + t) <==> AllLined(bounds, area, s) && AllLined(bounds, area, t)
  {
    hide Lined;
    assert forall k :: 0 <= k < |s| ==> (s + t)[k] == s[k];
    assert forall k :: 0 <= k < |t| ==> (s + t)[|s| + k] == t[k];
    assert forall k :: |s| <= k < |s + t| ==> (s + t)[k] == t[k - |s|];
  }

  lemma ChildLined(bounds: Rect, area: Rect, q: Query, d: int)
    requires Sound(bounds, area, q) && Lined(bounds, area, q) && 0 <= d < 4
    ensures AllLined(bounds, area, Child(q, d))
  {
    hide Percent, IntersectRect, IsIntersect, AlongGrid, Quarter, RectOf;
    if Child(q, d) != [] {
      var kid := Child(q, d)[0];
      PartMeets(bounds, area, q, d);
      forall n: nat ensures AlongGrid(kid.rect, area, n) <==> AlongGrid(bounds, area, kid.cell.level + n) {
        QuarterGrid(q.rect, area, d, n);
        assert AlongGrid(q.rect, area, n + 1) <==> AlongGrid(bounds, area, q.cell.level + (n + 1));
        assert q.cell.level + (n + 1) == kid.cell.level + n;
      }
    }
  }

  /** A quarter meets the part of the query exactly when it meets the query. */
  lemma PartMeets(bounds: Rect, area: Rect, q: Query, d: int)
    requires Sound(bounds, area, q) && 0 <= d < 4
    ensures IsIntersect(q.query, Quarter(q.rect, d)) <==> IsIntersect(area, Quarter(q.rect, d))
  {
    hide Quarter, IntersectRect, IsIntersect, RectOf, Percent;
    QuarterFits(q.rect, d, d);
    OverlapInside(q.rect, area, Quarter(q.rect, d));
  }

  lemma ChildrenLined(bounds: Rect, area: Rect, q: Query)
    requires Sound(bounds, area, q) && Lined(bounds, area, q) && q.percentage < 100.0
    ensures AllLined(bounds, area, Children(q))
  {
    hide Sound, Lined, Child, AllLined;
    QueryFits(bounds, area, q);
    ChildLined(bounds, area, q, 0);
    ChildLined(bounds, area, q, 1);
    ChildLined(bounds, area, q, 2);
    ChildLined(bounds, area, q, 3);
    AllLinedBoth(bounds, area, Child(q, 0), Child(q, 2));
    AllLinedBoth(bounds, area, Child(q, 0) + Child(q, 2), Child(q, 1));
    AllLinedBoth(bounds, area, Child(q, 0) + Child(q, 2) + Child(q, 1), Child(q, 3));
  }

  /** Which splits lose the query, by the lines of the whole index. */
  lemma LostOnLines(bounds: Rect, area: Rect, q: Query)
    requires Sound(bounds, area, q) && Lined(bounds, area, q) && q.percentage < 100.0
    ensures q.rect.Positive()
    ensures Children(q) == [] <==> AlongGrid(bounds, area, q.cell.level + 1)
  {
    hide Children, RectOf, OnGrid;
    QueryFits(bounds, area, q);
    SplitLosesQuery(q);
    assert AlongGrid(q.rect, area, 1) <==> AlongGrid(bounds, area, q.cell.level + 1);
    assert AlongGrid(q.rect, area, 1) <==> AlongGrid(q.rect, q.query, 1) by { SameLines(bounds, area, q); }
  }

  /** Cutting a query down to a cell keeps the lines along which it runs. */
  lemma SameLines(bounds: Rect, area: Rect, q: Query)
    requires Sound(bounds, area, q)
    ensures AlongGrid(q.rect, area, 1) <==> AlongGrid(q.rect, q.query, 1)
  {
    hide RectOf, OnGrid, Percent;
    var r := q.rect;
    FirstLines(r.left, r.right, area.left);
    FirstLines(r.bottom, r.top, area.bottom);
    FirstLines(r.left, r.right, q.query.left);
    FirstLines(r.bottom, r.top, q.query.bottom);
  }

  // ----- the cells that a query meets -----

  /** The number of cells of level n below r that the query meets. */
  function Met(r: Rect, area: Rect, n: nat): nat
    decreases n
  {
    if n == 0 then
      if IsIntersect(area, r) then 1 else 0
    else
      Met(Quarter(r, 0), area, n - 1) + Met(Quarter(r, 2), area, n - 1)
      + Met(Quarter(r, 1), area, n - 1) + Met(Quarter(r, 3), area, n - 1)
  }

  lemma {:induction false} MeetsNone(r: Rect, area: Rect, n: nat)
    requires r.Positive() && !IsIntersect(area, r)
    ensures Met(r, area, n) == 0
    decreases n
  {
    if 0 < n {
      hide IsIntersect, Quarter;
      QuarterMissed(r, area, 0);
      QuarterMissed(r, area, 1);
      QuarterMissed(r, area, 2);
      QuarterMissed(r, area, 3);
      MeetsNone(Quarter(r, 0), area, n - 1);
      MeetsNone(Quarter(r, 1), area, n - 1);
      MeetsNone(Quarter(r, 2), area, n - 1);
      MeetsNone(Quarter(r, 3), area, n - 1);
    }
  }

  lemma QuarterMissed(r: Rect, area: Rect, d: int)
    requires r.Positive() && !IsIntersect(area, r) && 0 <= d < 4
    ensures Quarter(r, d).Positive() && !IsIntersect(area, Quarter(r, d))
  {
  }

  lemma SomeQuarter(r: Rect, area: Rect) returns (d: int)
    requires r.Positive() && Proper(area) && IsIntersect(area, r) && !AlongGrid(r, area, 1)
    ensures 0 <= d < 4 && Quarter(r, d).Positive() && IsIntersect(area, Quarter(r, d))
  {
    hide OnGrid;
    FirstLines(r.left, r.right, area.left);
    FirstLines(r.bottom, r.top, area.bottom);
    var right := if area.left < (r.left + r.right) / 2.0 then 0 else 2;
    var upper := if area.bottom < (r.top + r.bottom) / 2.0 then 0 else 1;
    d := right + upper;
  }

  /** A query off the grid lines goes on meeting cells. */
  lemma {:induction false} MeetsSome(r: Rect, area: Rect, n: nat)
    requires r.Positive() && Proper(area) && IsIntersect(area, r) && !AlongGrid(r, area, n)
    ensures 1 <= Met(r, area, n)
    decreases n
  {
    if 0 < n {
      hide IsIntersect, Quarter, AlongGrid;
      if AlongGrid(r, area, 1) { FinerGrid(r, area, 1, n); }
      var d := SomeQuarter(r, area);
      QuarterGrid(r, area, d, n - 1);
      MeetsSome(Quarter(r, d), area, n - 1);
    }
  }

  function MetBy(q: Query, area: Rect, n: nat): nat {
    if q.cell.level <= n then Met(q.rect, area, n - q.cell.level) else 0
  }

  /** The cells of level n that the query meets, added up over the cells of the list. */
  function Count(s: seq<Query>, area: Rect, n: nat): nat {
    if s == [] then 0 else MetBy(s[0], area, n) + Count(s[1..], area, n)
  }

  lemma {:induction false} CountBoth(s: seq<Query>, t: seq<Query>, area: Rect, n: nat)
    ensures Count(s + t, area, n) == Count(s, area, n) + Count(t, area, n)
  {
    hide MetBy;
    if s == [] {
      assert s + t == t;
    } else {
      CountBoth(s[1..], t, area, n);
      assert (s + t)[1..] == s[1..] + t;
    }
  }

  lemma ChildCount(bounds: Rect, area: Rect, q: Query, d: int, n: nat)
    requires Sound(bounds, area, q) && 0 <= d < 4 && q.cell.level < n
    ensures Count(Child(q, d), area, n) == Met(Quarter(q.rect, d), area, n - q.cell.level - 1)
  {
    hide Percent, IntersectRect, IsIntersect, Quarter, RectOf, Met;
    PartMeets(bounds, area, q, d);
    if Child(q, d) == [] {
      QuarterFits(q.rect, d, d);
      MeetsNone(Quarter(q.rect, d), area, n - q.cell.level - 1);
    } else {
      assert Child(q, d)[1..] == [];
    }
  }

  /** A split keeps the number of cells of a finer level that are met. */
  lemma SplitKeepsCount(bounds: Rect, area: Rect, q: Query, n: nat)
    requires Sound(bounds, area, q) && q.percentage < 100.0 && q.cell.level < n
    ensures Count(Children(q), area, n) == MetBy(q, area, n)
  {
    hide Sound, Child, Quarter, Count;
    QueryFits(bounds, area, q);
    ChildCount(bounds, area, q, 0, n);
    ChildCount(bounds, area, q, 1, n);
    ChildCount(bounds, area, q, 2, n);
    ChildCount(bounds, area, q, 3, n);
    CountBoth(Child(q, 0), Child(q, 2), area, n);
    CountBoth(Child(q, 0) + Child(q, 2), Child(q, 1), area, n);
    CountBoth(Child(q, 0) + Child(q, 2) + Child(q, 1), Child(q, 3), area, n);
  }

  lemma {:induction false} CountAtLeast(s: seq<Query>, area: Rect, n: nat)
    requires forall k :: 0 <= k < |s| ==> 1 <= MetBy(s[k], area, n)
    ensures |s| <= Count(s, area, n)
  {
    if s != [] { CountAtLeast(s[1..], area, n); }
  }

  lemma {:induction false} CountExactly(s: seq<Query>, area: Rect, n: nat)
    requires forall k :: 0 <= k < |s| ==> 1 == MetBy(s[k], area, n)
    ensures |s| == Count(s, area, n)
  {
    if s != [] { CountExactly(s[1..], area, n); }
  }

  // ----- level after level -----

  /** The last level whose lines do not hold the query: its cells lose it when they are split. */
  ghost predicate LastLevel(bounds: Rect, area: Rect, n: nat) {
    AlongGrid(bounds, area, n + 1) && (n == 0 || !AlongGrid(bounds, area, n))
  }

  lemma OneLastLevel(bounds: Rect, area: Rect, m: nat, n: nat)
    requires LastLevel(bounds, area, m) && LastLevel(bounds, area, n)
    ensures m == n
  {
    hide AlongGrid;
    if m < n { FinerGrid(bounds, area, m + 1, n); }
    if n < m { FinerGrid(bounds, area, n + 1, m); }
  }

  lemma {:induction false} FindLastLevel(bounds: Rect, area: Rect, n: nat) returns (m: nat)
    requires AlongGrid(bounds, area, n + 1)
    ensures m <= n && LastLevel(bounds, area, m)
    decreases n
  {
    hide AlongGrid;
    m := n;
    if 0 < n && AlongGrid(bounds, area, n) { m := FindLastLevel(bounds, area, n - 1); }
  }

  /** The cells are split level by level: those of one level, then those of the next. */
  ghost predicate InOrder(s: seq<Query>) {
    forall j, k :: 0 <= j < k < |s| ==> s[j].cell.level <= s[k].cell.level <= s[j].cell.level + 1
  }

  /** The list for a query that is lost after level n. */
  ghost predicate Orderly(bounds: Rect, area: Rect, s: seq<Query>, n: nat) {
    && InOrder(s) && (forall k :: 0 <= k < |s| ==> s[k].cell.level <= n)
    && Count(s, area, n) == Met(bounds, area, n)
    && (n == 0 ==> |s| == 1)
    && (0 < n ==> forall k :: 0 <= k < |s| ==> IsIntersect(area, s[k].rect))
  }

  ghost predicate Thin(area: Rect) {
    area.left == area.right || area.bottom == area.top
  }

  lemma NoPercentage(bounds: Rect, area: Rect, q: Query)
    requires Sound(bounds, area, q) && Thin(area)
    ensures q.percentage == 0.0
  {
    hide RectOf;
    var w, h := q.query.Width(), q.query.Height();
    assert w == 0.0 || h == 0.0;
    Nothing(w, h);
  }

  lemma StartOrderly(bounds: Rect, area: Rect, q: Query, n: nat)
    requires bounds.Positive() && Proper(area) && Within(area, bounds) && LastLevel(bounds, area, n)
    requires q.cell.level == 0 && q.rect == bounds
    ensures Orderly(bounds, area, [q], n)
  {
    hide Met, OnGrid, Count;
    CountOfOne(q, area, n);
    assert MetBy(q, area, n) == Met(bounds, area, n);
    if 0 < n {
      if AlongGrid(bounds, area, 0) { FinerGrid(bounds, area, 0, n); }
      SidesMissed(bounds, area);
    }
  }

  lemma SidesMissed(r: Rect, area: Rect)
    requires r.Positive() && Proper(area) && Within(area, r) && !AlongGrid(r, area, 0)
    ensures IsIntersect(area, r)
  {
  }

  /** The list always starts with a cell of the lowest level. */
  lemma SplitKeepsOrder(bounds: Rect, area: Rect, s: seq<Query>, n: nat)
    requires s != [] && AllSound(bounds, area, s) && AllLined(bounds, area, s) && s[0].percentage < 100.0
    requires LastLevel(bounds, area, n) && Orderly(bounds, area, s, n)
    requires bounds.Positive()
    ensures s[0].rect.Positive()
    ensures Children(s[0]) == [] <==> s[0].cell.level == n
    ensures Children(s[0]) != [] ==> Orderly(bounds, area, s[1..] + Children(s[0]), n)
  {
    hide Sound, Lined, Children, Met, Count, AlongGrid, IsIntersect, Inside;
    var q := s[0];
    QueryFits(bounds, area, q);
    var kids := Children(q);
    LostOnLines(bounds, area, q);
    if q.cell.level == n {
    } else {
      if kids == [] { FinerGrid(bounds, area, q.cell.level + 1, n); }
      ChildrenFit(bounds, area, q);
      KidsInOrder(s, kids, n);
      KidsMeet(bounds, area, q);
      SplitKeepsCount(bounds, area, q, n);
      CountBoth([q], s[1..], area, n);
      CountBoth(s[1..], kids, area, n);
      assert s == [q] + s[1..];
      CountOfOne(q, area, n);
    }
  }

  lemma CountOfOne(q: Query, area: Rect, n: nat)
    ensures Count([q], area, n) == MetBy(q, area, n)
  {
    assert [q][1..] == [];
  }

  lemma KidsInOrder(s: seq<Query>, kids: seq<Query>, n: nat)
    requires s != [] && InOrder(s) && Inside(kids, s[0]) && s[0].cell.level < n
    requires forall k :: 0 <= k < |s| ==> s[k].cell.level <= n
    ensures InOrder(s[1..] + kids)
    ensures forall k :: 0 <= k < |s[1..] + kids| ==> (s[1..] + kids)[k].cell.level <= n
  {
    var next := s[1..] + kids;
    assert forall k :: |s| - 1 <= k < |next| ==> next[k] == kids[k - (|s| - 1)];
    assert forall k :: 0 <= k < |s| - 1 ==> next[k] == s[k + 1];
  }

  lemma KidsMeet(bounds: Rect, area: Rect, q: Query)
    requires Sound(bounds, area, q)
    ensures forall k :: 0 <= k < |Children(q)| ==> IsIntersect(area, Children(q)[k].rect)
  {
    hide Percent, IntersectRect, IsIntersect, Quarter, RectOf;
    PartMeets(bounds, area, q, 0);
    PartMeets(bounds, area, q, 1);
    PartMeets(bounds, area, q, 2);
    PartMeets(bounds, area, q, 3);
    OnlyChild(q, 0);
    OnlyChild(q, 1);
    OnlyChild(q, 2);
    OnlyChild(q, 3);
  }

  lemma OnlyChild(q: Query, d: int)
    requires q.rect.Positive() && 0 <= d < 4
    ensures |Child(q, d)| <= 1
    ensures forall k :: 0 <= k < |Child(q, d)| ==>
              Child(q, d)[k].rect == Quarter(q.rect, d) && IsIntersect(q.query, Quarter(q.rect, d))
  {
    hide Percent, IntersectRect, IsIntersect, Quarter;
  }

  /** Before the query is lost there are no more cells than the last level has. */
  lemma NoMoreThanMet(bounds: Rect, area: Rect, s: seq<Query>, n: nat)
    requires AllSound(bounds, area, s) && AllLined(bounds, area, s) && Proper(area)
    requires LastLevel(bounds, area, n) && Orderly(bounds, area, s, n) && 0 < n
    ensures |s| <= Met(bounds, area, n)
  {
    hide Met, Count, AlongGrid, IsIntersect, RectOf, Percent, IntersectRect;
    forall k | 0 <= k < |s| ensures 1 <= MetBy(s[k], area, n) {
      assert Sound(bounds, area, s[k]) && Lined(bounds, area, s[k]);
      var left: nat := n - s[k].cell.level;
      assert AlongGrid(s[k].rect, area, left) <==> AlongGrid(bounds, area, s[k].cell.level + left);
      MeetsSome(s[k].rect, area, left);
    }
    CountAtLeast(s, area, n);
  }

  /** When the first split loses the query, the list holds all cells of the last level that are met,
      and every further split loses it too. */
  lemma AllAreLost(bounds: Rect, area: Rect, s: seq<Query>, n: nat)
    requires s != [] && AllSound(bounds, area, s) && AllLined(bounds, area, s) && Thin(area)
    requires LastLevel(bounds, area, n) && Orderly(bounds, area, s, n) && s[0].cell.level == n
    ensures 0 < n ==> |s| == Met(bounds, area, n)
    ensures Losing(s)
  {
    hide Sound, Lined, Count, AlongGrid, IsIntersect, Children;
    assert forall k :: 0 <= k < |s| ==> s[k].cell.level == n;
    forall k | 0 <= k < |s| ensures s[k].percentage < 100.0 && s[k].rect.Positive() && Children(s[k]) == [] {
      assert Sound(bounds, area, s[k]) && Lined(bounds, area, s[k]);
      NoPercentage(bounds, area, s[k]);
      LostOnLines(bounds, area, s[k]);
    }
    if 0 < n {
      CountExactly(s, area, n);
    }
  }

  /** Every cell loses the query. */
  ghost predicate Losing(s: seq<Query>) {
    forall k :: 0 <= k < |s| ==> s[k].percentage < 100.0 && s[k].rect.Positive() && Children(s[k]) == []
  }
}
