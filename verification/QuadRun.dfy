/** ComputerGeoHash of geogridcoder/UGGeoHash.cpp: its splitting loop, and the keys it returns. */
module QuadRun {
  import opened Arith
  import opened QuadKeys
  import opened QuadCells
  import opened QuadCover
  import opened QuadLines

  // ----- the loop -----

  /** GetMinPercentagePos: the first entry of minimal percentage. */
  method GetMinPercentagePos(s: seq<Query>) returns (pos: nat)
    requires s != []
    ensures pos < |s| && forall k :: 0 <= k < |s| ==> s[pos].percentage <= s[k].percentage
    ensures forall k :: 0 <= k < pos ==> s[pos].percentage < s[k].percentage
  {
    pos := 0;
    for i := 1 to |s|
      invariant pos < i && forall k :: 0 <= k < i ==> s[pos].percentage <= s[k].percentage
      invariant forall k :: 0 <= k < pos ==> s[pos].percentage < s[k].percentage
    {
      if s[i].percentage < s[pos].percentage {
        pos := i;
      }
    }
  }

  function Pow5(n: nat): (p: nat)
    ensures 1 <= p
  {
    if n == 0 then 1 else 5 * Pow5(n - 1)
  }

  function Weight(q: Query, limit: int): (w: nat)
    ensures 1 <= w
  {
    if q.cell.level < limit then Pow5(limit - q.cell.level) else 1
  }

  /** The work that is left: five to the number of levels to go, over all cells. */
  function Load(s: seq<Query>, limit: int): nat {
    if s == [] then 0 else Weight(s[0], limit) + Load(s[1..], limit)
  }

  lemma {:induction false} LoadBoth(s: seq<Query>, t: seq<Query>, limit: int)
    ensures Load(s + t, limit) == Load(s, limit) + Load(t, limit)
  {
    hide Weight;
    if s == [] {
      assert s + t == t;
    } else {
      LoadBoth(s[1..], t, limit);
      assert (s + t)[1..] == s[1..] + t;
    }
  }

  lemma {:induction false} LoadBound(s: seq<Query>, limit: int, w: nat)
    requires forall k :: 0 <= k < |s| ==> Weight(s[k], limit) <= w
    ensures Load(s, limit) <= |s| * w
  {
    if s != [] {
      LoadBound(s[1..], limit, w);
      assert |s| * w == (|s| - 1) * w + w;
    }
  }

  /** A split that reaches no cell of the limit level leaves less work. */
  lemma SplitLowersLoad(s: seq<Query>, n: nat, kids: seq<Query>, limit: int)
    requires n < |s| && |kids| <= 4 && Inside(kids, s[n])
    requires forall k :: 0 <= k < |kids| ==> kids[k].cell.level < limit
    ensures Load(s[..n] + s[n + 1..] + kids, limit) < Load(s, limit)
  {
    hide Weight;
    var q, front, back := s[n], s[..n], s[n + 1..];
    assert s == front + ([q] + back);
    LoadBoth(front, [q] + back, limit);
    LoadBoth([q], back, limit);
    LoadOfOne(q, limit);
    LoadBoth(front, back, limit);
    LoadBoth(front + back, kids, limit);
    KidsWeigh(q, kids, limit);
  }

  lemma LoadOfOne(q: Query, limit: int)
    ensures Load([q], limit) == Weight(q, limit)
  {
    assert [q][1..] == [];
  }

  lemma KidsWeigh(q: Query, kids: seq<Query>, limit: int)
    requires |kids| <= 4 && Inside(kids, q)
    requires forall k :: 0 <= k < |kids| ==> kids[k].cell.level < limit
    ensures Load(kids, limit) < Weight(q, limit)
  {
    if kids != [] {
      assert kids[0].cell.level == q.cell.level + 1;
      var w := Pow5(limit - q.cell.level - 1);
      LoadBound(kids, limit, w);
      MulFour(|kids|, w);
    }
  }

  lemma MulFour(n: nat, w: nat)
    requires n <= 4
    ensures n * w <= 4 * w
  {
  }

  /** Some cell has reached the limit level. */
  ghost predicate AtLimit(s: seq<Query>, limit: int) {
    exists k :: 0 <= k < |s| && s[k].cell.level >= limit
  }

  /** Every cell lies inside the query: the cells tile it. */
  ghost predicate Exact(s: seq<Query>) {
    forall k :: 0 <= k < |s| ==> s[k].query == s[k].rect
  }

  lemma SmallerArea(a: real, w: real, h: real, b: real)
    requires 0.0 < a <= w && 0.0 < b <= h && (a < w || b < h)
    ensures a * b < w * h
  {
    if a < w {
      MulStrict(a, w, b);
      MulMonotone(b, h, w);
    } else {
      MulStrict(b, h, w);
    }
  }

  lemma BigPercent(r: real, w: real, h: real)
    requires 0.0 < w && 0.0 < h && r * 100.0 / w / h >= 100.0
    ensures r >= w * h
  {
    var u := r * 100.0 / w;
    DivideTimes(r * 100.0, w);
    DivideTimes(u, h);
    MulMonotone(100.0, u / h, h);
    MulMonotone(100.0 * h, u, w);
  }

  lemma FullCell(a: real, w: real, h: real, b: real)
    requires 0.0 <= a <= w && 0.0 <= b <= h && 0.0 < w && 0.0 < h && Share(a, b, w, h) >= 100.0
    ensures a == w && b == h
  {
    BigPercent(a * b, w, h);
    MulStrict(0.0, w, h);
    if a == 0.0 || b == 0.0 { Nothing(a, b); }
    if a < w || b < h { SmallerArea(a, w, h, b); }
  }

  lemma PercentFull(q: Rect, r: Rect)
    requires r.Positive() && Proper(q) && Within(q, r) && Percent(q, r) >= 100.0
    ensures q.Width() == r.Width() && q.Height() == r.Height()
  {
    hide Rect.Width, Rect.Height, Share;
    SidesFit(q, r);
    FullCell(q.Width(), r.Width(), r.Height(), q.Height());
  }

  lemma SidesFit(q: Rect, r: Rect)
    requires r.Positive() && Proper(q) && Within(q, r)
    ensures 0.0 <= q.Width() <= r.Width() && 0.0 <= q.Height() <= r.Height() && 0.0 < r.Width() && 0.0 < r.Height()
  {
  }

  lemma FullyCovered(bounds: Rect, area: Rect, q: Query)
    requires Sound(bounds, area, q) && q.percentage >= 100.0
    ensures q.query == q.rect
  {
    hide RectOf, Percent, IntersectRect;
    QueryFits(bounds, area, q);
    PercentFull(q.query, q.rect);
  }

  lemma AllFullyCovered(bounds: Rect, area: Rect, s: seq<Query>, n: nat)
    requires AllSound(bounds, area, s) && n < |s| && s[n].percentage >= 100.0
    requires forall k :: 0 <= k < |s| ==> s[n].percentage <= s[k].percentage
    ensures Exact(s)
  {
    hide Sound;
    forall k | 0 <= k < |s| ensures s[k].query == s[k].rect {
      FullyCovered(bounds, area, s[k]);
    }
  }

  lemma FirstEntry(bounds: Rect, area: Rect, q: Query)
    requires bounds.Positive() && Proper(area) && Within(area, bounds)
    requires q == Query(Cell(0, 0), bounds, Percent(area, bounds), area)
    ensures Partition(bounds, area, [q])
  {
    hide Percent;
    SumOfOne([q]);
    assert Sound(bounds, area, q);
    forall p | In(p, area) ensures CoveredBy([q], p) {
      CoveredByOne(q, p);
    }
  }

  /** Levels stay below the limit as long as the loop goes on; one split at most goes past it. */
  ghost predicate LevelsBelow(s: seq<Query>, limit: int) {
    forall k :: 0 <= k < |s| ==> s[k].cell.level < limit || s[k].cell.level == 0
  }

  ghost predicate LevelsPacked(s: seq<Query>) {
    forall k :: 0 <= k < |s| ==> s[k].cell.level <= MAXHASHLEVEL
  }

  lemma LevelsAfter(s: seq<Query>, n: nat, kids: seq<Query>, limit: int)
    requires n < |s| && LevelsBelow(s, limit) && limit <= MAXHASHLEVEL && Inside(kids, s[n])
    ensures LevelsPacked(s[..n] + s[n + 1..] + kids)
    ensures (forall k :: 0 <= k < |kids| ==> kids[k].cell.level < limit) ==>
              LevelsBelow(s[..n] + s[n + 1..] + kids, limit)
    ensures (exists k :: 0 <= k < |kids| && kids[k].cell.level >= limit) ==> AtLimit(s[..n] + s[n + 1..] + kids, limit)
  {
    var others := s[..n] + s[n + 1..];
    var all := others + kids;
    forall k | 0 <= k < |others| ensures others[k] in s {
      if k < n { assert others[k] == s[k]; } else { assert others[k] == s[k + 1]; }
    }
    assert forall k :: |others| <= k < |all| ==> all[k] == kids[k - |others|];
    if exists k :: 0 <= k < |kids| && kids[k].cell.level >= limit {
      var k :| 0 <= k < |kids| && kids[k].cell.level >= limit;
      assert all[|others| + k] == kids[k];
    }
  }

  // ----- the run -----

  /** The query is lost: it is a segment or point, and before any other reason to stop all cells of the
      last level that it meets are in the list, which each of their splits makes shorter. */
  ghost predicate Lost(bounds: Rect, area: Rect, limit: int, maxKeys: int) {
    exists n: nat :: LastLevel(bounds, area, n) && ReachedAt(bounds, area, limit, maxKeys, n)
  }

  ghost predicate ReachedAt(bounds: Rect, area: Rect, limit: int, maxKeys: int, n: nat) {
    if n == 0 then 1 < maxKeys else n < limit && Met(bounds, area, n) < maxKeys
  }

  lemma NotLost(bounds: Rect, area: Rect, limit: int, maxKeys: int, n: nat)
    requires LastLevel(bounds, area, n) && !ReachedAt(bounds, area, limit, maxKeys, n)
    ensures !Lost(bounds, area, limit, maxKeys)
  {
    hide LastLevel, ReachedAt;
    if Lost(bounds, area, limit, maxKeys) {
      var m: nat :| LastLevel(bounds, area, m) && ReachedAt(bounds, area, limit, maxKeys, m);
      OneLastLevel(bounds, area, m, n);
    }
  }

  ghost predicate SizeFits(s: seq<Query>, maxKeys: int) {
    1 <= |s| && (|s| <= maxKeys + 2 || |s| == 1)
  }

  /** The list as long as no split has lost the query. */
  ghost predicate Alive(bounds: Rect, area: Rect, s: seq<Query>, limit: int, maxKeys: int) {
    && bounds.Positive() && Proper(area)
    && Partition(bounds, area, s) && AllLined(bounds, area, s) && SizeFits(s, maxKeys)
    && LevelsBelow(s, limit) && LevelsPacked(s)
    && forall n: nat :: LastLevel(bounds, area, n) ==> Orderly(bounds, area, s, n)
  }

  /** What the loop leaves. */
  ghost predicate Finished(bounds: Rect, area: Rect, s: seq<Query>, limit: int, maxKeys: int) {
    && Partition(bounds, area, s) && LevelsPacked(s) && SizeFits(s, maxKeys)
    && (|s| < maxKeys ==> AtLimit(s, limit) || Exact(s))
  }

  lemma StartAlive(bounds: Rect, area: Rect, q: Query, limit: int, maxKeys: int)
    requires bounds.Positive() && Proper(area) && Within(area, bounds)
    requires q == Query(Cell(0, 0), bounds, Percent(area, bounds), area)
    ensures Alive(bounds, area, [q], limit, maxKeys)
  {
    hide Percent, Partition, LevelsBelow, LevelsPacked, LastLevel, Orderly;
    FirstEntry(bounds, area, q);
    StartLevels(q, limit);
    assert Lined(bounds, area, q);
    forall n: nat | LastLevel(bounds, area, n) ensures Orderly(bounds, area, [q], n) {
      StartOrderly(bounds, area, q, n);
    }
  }

  lemma NextEntry(bounds: Rect, area: Rect, s: seq<Query>, limit: int, maxKeys: int, n: nat)
    requires Alive(bounds, area, s, limit, maxKeys) && n < |s|
    ensures AllSound(bounds, area, s) && AllLined(bounds, area, s)
    ensures Sound(bounds, area, s[n]) && Lined(bounds, area, s[n]) && s[n].rect.Positive()
  {
    hide Lined, Sound, Separate, Covers, LevelsBelow, LevelsPacked, Orderly, LastLevel, Area, Sum;
    assert Sound(bounds, area, s[n]);
    QueryFits(bounds, area, s[n]);
  }

  /** A query without area is split in the order of the list. */
  lemma ThinTakesFirst(bounds: Rect, area: Rect, s: seq<Query>, n: nat)
    requires AllSound(bounds, area, s) && Thin(area) && n < |s|
    requires forall k :: 0 <= k < n ==> s[n].percentage < s[k].percentage
    ensures n == 0 && s[0].percentage == 0.0
  {
    hide Sound;
    NoPercentage(bounds, area, s[0]);
    NoPercentage(bounds, area, s[n]);
  }

  /** The entry that GetMinPercentagePos finds. */
  ghost predicate IsFirstMinimum(s: seq<Query>, n: nat) {
    && n < |s| && (forall k :: 0 <= k < |s| ==> s[n].percentage <= s[k].percentage)
    && forall k :: 0 <= k < n ==> s[n].percentage < s[k].percentage
  }

  lemma LastLevelIsThin(bounds: Rect, area: Rect, n: nat)
    requires LastLevel(bounds, area, n)
    ensures Thin(area)
  {
    hide OnGrid;
  }

  lemma SplitKeepsOrderly(bounds: Rect, area: Rect, s: seq<Query>, limit: int, maxKeys: int, n: nat, m: nat)
    requires Alive(bounds, area, s, limit, maxKeys) && IsFirstMinimum(s, n) && s[n].percentage < 100.0
    requires LastLevel(bounds, area, m)
    ensures s[n].rect.Positive() && n == 0
    ensures Children(s[n]) == [] <==> s[n].cell.level == m
    ensures Children(s[n]) != [] ==> Orderly(bounds, area, s[..n] + s[n + 1..] + Children(s[n]), m)
  {
    hide Partition, Lined, Sound, LevelsBelow, LevelsPacked, Orderly, LastLevel, Children, AllSound, AllLined;
    NextEntry(bounds, area, s, limit, maxKeys, n);
    LastLevelIsThin(bounds, area, m);
    ThinTakesFirst(bounds, area, s, n);
    SplitKeepsOrder(bounds, area, s, m);
    assert s[..0] + s[1..] == s[1..];
  }

  lemma OthersLined(bounds: Rect, area: Rect, s: seq<Query>, n: nat)
    requires AllLined(bounds, area, s) && n < |s|
    ensures AllLined(bounds, area, s[..n] + s[n + 1..])
  {
    hide Lined;
    AllLinedBoth(bounds, area, s[..n], [s[n]] + s[n + 1..]);
    AllLinedBoth(bounds, area, [s[n]], s[n + 1..]);
    AllLinedBoth(bounds, area, s[..n], s[n + 1..]);
    assert s == s[..n] + ([s[n]] + s[n + 1..]);
  }

  /** What a split that keeps the query leaves, whatever the levels. */
  lemma SplitKeepsLines(bounds: Rect, area: Rect, s: seq<Query>, limit: int, maxKeys: int, n: nat)
    requires Alive(bounds, area, s, limit, maxKeys) && IsFirstMinimum(s, n) && s[n].percentage < 100.0
    requires |s| < maxKeys
    ensures s[n].rect.Positive() && Inside(Children(s[n]), s[n])
    ensures var next := s[..n] + s[n + 1..] + Children(s[n]);
            Children(s[n]) != [] ==>
              && Partition(bounds, area, next) && AllLined(bounds, area, next) && SizeFits(next, maxKeys)
              && forall m: nat :: LastLevel(bounds, area, m) ==> Orderly(bounds, area, next, m)
  {
    hide Partition, Lined, Sound, LevelsBelow, LevelsPacked, Orderly, LastLevel, AllSound, AllLined, Child, Inside;
    NextEntry(bounds, area, s, limit, maxKeys, n);
    SplitKeepsPartition(bounds, area, s, n);
    ChildrenLined(bounds, area, s[n]);
    OthersLined(bounds, area, s, n);
    AllLinedBoth(bounds, area, s[..n] + s[n + 1..], Children(s[n]));
    forall m: nat | LastLevel(bounds, area, m) && Children(s[n]) != []
      ensures Orderly(bounds, area, s[..n] + s[n + 1..] + Children(s[n]), m)
    {
      SplitKeepsOrderly(bounds, area, s, limit, maxKeys, n, m);
    }
  }

  lemma SplitKeepsAlive(bounds: Rect, area: Rect, s: seq<Query>, limit: int, maxKeys: int, n: nat)
    requires Alive(bounds, area, s, limit, maxKeys) && IsFirstMinimum(s, n) && s[n].percentage < 100.0
    requires |s| < maxKeys && limit <= MAXHASHLEVEL
    ensures s[n].rect.Positive()
    ensures var kids := Children(s[n]);
            && Inside(kids, s[n])
            && (kids != [] && (forall k :: 0 <= k < |kids| ==> kids[k].cell.level < limit)
                ==> Alive(bounds, area, s[..n] + s[n + 1..] + kids, limit, maxKeys))
  {
    hide Partition, LevelsBelow, LevelsPacked, Orderly, LastLevel, Children, AllLined, SizeFits, Inside;
    SplitKeepsLines(bounds, area, s, limit, maxKeys, n);
    LevelsAfter(s, n, Children(s[n]), limit);
  }

  /** A split that reaches the limit level ends the run. */
  lemma LimitEnds(bounds: Rect, area: Rect, s: seq<Query>, limit: int, maxKeys: int, n: nat)
    requires Alive(bounds, area, s, limit, maxKeys) && IsFirstMinimum(s, n) && s[n].percentage < 100.0
    requires |s| < maxKeys && limit <= MAXHASHLEVEL && s[n].rect.Positive()
    requires exists k :: 0 <= k < |Children(s[n])| && Children(s[n])[k].cell.level >= limit
    ensures Finished(bounds, area, s[..n] + s[n + 1..] + Children(s[n]), limit, maxKeys)
    ensures !Lost(bounds, area, limit, maxKeys)
  {
    hide Partition, LevelsBelow, LevelsPacked, Orderly, LastLevel, Children, AllLined, SizeFits, Lost, AtLimit, Exact;
    SplitKeepsLines(bounds, area, s, limit, maxKeys, n);
    var kids := Children(s[n]);
    LevelsAfter(s, n, kids, limit);
    if Lost(bounds, area, limit, maxKeys) {
      var m := LostAt(bounds, area, limit, maxKeys);
      KidAboveLast(bounds, area, s, kids, n, m, limit, maxKeys);
    }
  }

  lemma KidAboveLast(bounds: Rect, area: Rect, s: seq<Query>, kids: seq<Query>, n: nat, m: nat, limit: int,
                     maxKeys: int)
    requires n < |s| && Inside(kids, s[n]) && Orderly(bounds, area, s[..n] + s[n + 1..] + kids, m)
    requires exists k :: 0 <= k < |kids| && kids[k].cell.level >= limit
    ensures !ReachedAt(bounds, area, limit, maxKeys, m)
  {
    hide Met, Count, IsIntersect, InOrder;
    var k :| 0 <= k < |kids| && kids[k].cell.level >= limit;
    var next := s[..n] + s[n + 1..] + kids;
    assert next[|s| - 1 + k] == kids[k];
  }

  lemma LostAt(bounds: Rect, area: Rect, limit: int, maxKeys: int) returns (m: nat)
    requires Lost(bounds, area, limit, maxKeys)
    ensures LastLevel(bounds, area, m) && ReachedAt(bounds, area, limit, maxKeys, m)
  {
    hide LastLevel, ReachedAt;
    m :| LastLevel(bounds, area, m) && ReachedAt(bounds, area, limit, maxKeys, m);
  }

  /** The first split that loses the query: the last level is there, and every other split loses it. */
  lemma LossBegins(bounds: Rect, area: Rect, s: seq<Query>, limit: int, maxKeys: int, n: nat)
    requires Alive(bounds, area, s, limit, maxKeys) && IsFirstMinimum(s, n) && s[n].percentage < 100.0
    requires |s| < maxKeys && s[n].rect.Positive() && Children(s[n]) == []
    ensures Lost(bounds, area, limit, maxKeys) && Losing(s[..n] + s[n + 1..])
  {
    hide Partition, LevelsPacked, Orderly, LastLevel, Children, AllLined, AllSound, Sound;
    hide Lined, Losing, Met, AlongGrid;
    NextEntry(bounds, area, s, limit, maxKeys, n);
    LostOnLines(bounds, area, s[n]);
    var m := FindLastLevel(bounds, area, s[n].cell.level);
    SplitKeepsOrderly(bounds, area, s, limit, maxKeys, n, m);
    LastLevelIsThin(bounds, area, m);
    AllAreLost(bounds, area, s, m);
    OthersLosing(s);
    assert s[..0] + s[1..] == s[1..];
    if m == 0 { RootAlone(bounds, area, s, m); }
    assert ReachedAt(bounds, area, limit, maxKeys, m);
  }

  lemma RootAlone(bounds: Rect, area: Rect, s: seq<Query>, m: nat)
    requires Orderly(bounds, area, s, m) && m == 0
    ensures |s| == 1
  {
    hide Count, Met;
  }

  lemma OthersLosing(s: seq<Query>)
    requires Losing(s) && s != []
    ensures Losing(s[1..])
  {
    hide Children;
    assert forall k :: 0 <= k < |s| - 1 ==> s[1..][k] == s[k + 1];
  }

  /** A list that is long enough has not lost the query, and will not. */
  lemma LongEnough(bounds: Rect, area: Rect, s: seq<Query>, limit: int, maxKeys: int)
    requires Alive(bounds, area, s, limit, maxKeys) && |s| >= maxKeys
    ensures Finished(bounds, area, s, limit, maxKeys) && !Lost(bounds, area, limit, maxKeys)
  {
    hide Partition, LevelsPacked, Orderly, LastLevel, Lost, Met, AtLimit, Exact, LevelsBelow;
    if Lost(bounds, area, limit, maxKeys) {
      var m := LostAt(bounds, area, limit, maxKeys);
      if m == 0 {
        RootAlone(bounds, area, s, m);
      } else {
        NextEntry(bounds, area, s, limit, maxKeys, 0);
        NoMoreThanMet(bounds, area, s, m);
      }
    }
  }

  /** A query that fills every cell of the list has an area. */
  lemma FullEnds(bounds: Rect, area: Rect, s: seq<Query>, limit: int, maxKeys: int, n: nat)
    requires Alive(bounds, area, s, limit, maxKeys) && IsFirstMinimum(s, n) && s[n].percentage >= 100.0
    ensures Finished(bounds, area, s, limit, maxKeys) && !Lost(bounds, area, limit, maxKeys)
  {
    hide Partition, LevelsPacked, Orderly, LastLevel, Lost, Met, AtLimit, Exact, LevelsBelow, AllSound, AllLined, Sound;
    NextEntry(bounds, area, s, limit, maxKeys, n);
    AllFullyCovered(bounds, area, s, n);
    if Lost(bounds, area, limit, maxKeys) {
      var m := LostAt(bounds, area, limit, maxKeys);
      LastLevelIsThin(bounds, area, m);
      NoPercentage(bounds, area, s[n]);
    }
  }

  /** A query beyond an edge, turned inside out by the cut, is lost whenever a split takes place. */
  ghost predicate LostCut(bounds: Rect, area: Rect, limit: int, maxKeys: int)
    requires bounds.Positive()
  {
    if Proper(area) then Lost(bounds, area, limit, maxKeys) else 1 < maxKeys && Percent(area, bounds) < PERCENTAGE
  }

  // ----- which cells are split -----

  /** The first entry of least percentage is replaced by its quarters, which go to the end. */
  ghost predicate SplitStep(s: seq<Query>, t: seq<Query>) {
    exists n: nat :: IsFirstMinimum(s, n) && SplitAt(s, t, n)
  }

  ghost predicate SplitAt(s: seq<Query>, t: seq<Query>, n: nat) {
    && n < |s| && s[n].rect.Positive() && s[n].percentage < PERCENTAGE
    && t == s[..n] + s[n + 1..] + Children(s[n])
  }

  /** A quarter that the split from s to t has added is at the limit level. */
  ghost predicate ReachesLimit(s: seq<Query>, t: seq<Query>, limit: int) {
    exists k :: |s| - 1 <= k < |t| && 0 <= k && t[k].cell.level >= limit
  }

  ghost predicate IsFull(s: seq<Query>) {
    s != [] && forall k :: 0 <= k < |s| ==> s[k].percentage >= PERCENTAGE
  }

  /** The lists that the loop goes through, none of which but the last one ends it. */
  ghost predicate RunSoFar(first: Query, limit: int, maxKeys: int, run: seq<seq<Query>>) {
    && run != [] && run[0] == [first]
    && (forall i, j :: 0 <= i && j == i + 1 && j < |run| ==> |run[i]| < maxKeys && SplitStep(run[i], run[j]))
    && forall i, j :: 0 <= i && j == i + 1 && j < |run| - 1 ==> !ReachesLimit(run[i], run[j], limit)
  }

  ghost predicate LastReachesLimit(run: seq<seq<Query>>, limit: int) {
    2 <= |run| && ReachesLimit(run[|run| - 2], run[|run| - 1], limit)
  }

  /** The run ends with the first list that is long enough, empty, full, or has reached the limit. */
  ghost predicate IsRun(first: Query, limit: int, maxKeys: int, run: seq<seq<Query>>) {
    && RunSoFar(first, limit, maxKeys, run)
    && (|run[|run| - 1]| >= maxKeys || run[|run| - 1] == [] || IsFull(run[|run| - 1]) || LastReachesLimit(run, limit))
  }

  lemma NoMinimumBefore(s: seq<Query>, m: nat, n: nat)
    requires IsFirstMinimum(s, n) && m < n
    ensures !IsFirstMinimum(s, m)
  {
    assert s[n].percentage < s[m].percentage;
  }

  lemma OneFirstMinimum(s: seq<Query>, m: nat, n: nat)
    requires IsFirstMinimum(s, m) && IsFirstMinimum(s, n)
    ensures m == n
  {
    hide IsFirstMinimum;
    if m < n { NoMinimumBefore(s, m, n); }
    if n < m { NoMinimumBefore(s, n, m); }
  }

  lemma OneStep(s: seq<Query>, t: seq<Query>, u: seq<Query>)
    requires SplitStep(s, t) && SplitStep(s, u)
    ensures t == u && s != [] && !IsFull(s)
  {
    hide Children, IsFirstMinimum;
    var m: nat :| IsFirstMinimum(s, m) && SplitAt(s, t, m);
    var n: nat :| IsFirstMinimum(s, n) && SplitAt(s, u, n);
    OneFirstMinimum(s, m, n);
  }

  /** There is one run: first query, limit and number of keys determine what is split, in which order, and
      when the loop ends. */
  lemma RunIsUnique(first: Query, limit: int, maxKeys: int, run: seq<seq<Query>>, other: seq<seq<Query>>)
    requires IsRun(first, limit, maxKeys, run) && IsRun(first, limit, maxKeys, other)
    ensures run == other
  {
    hide SplitStep, ReachesLimit, IsFull;
    if |run| <= |other| {
      SameStart(first, limit, maxKeys, run, other, |run| - 1);
      NotLonger(first, limit, maxKeys, run, other);
    } else {
      SameStart(first, limit, maxKeys, other, run, |other| - 1);
      NotLonger(first, limit, maxKeys, other, run);
    }
  }

  lemma {:induction false} SameStart(first: Query, limit: int, maxKeys: int, run: seq<seq<Query>>,
                                     other: seq<seq<Query>>, i: nat)
    requires RunSoFar(first, limit, maxKeys, run) && RunSoFar(first, limit, maxKeys, other)
    requires i < |run| <= |other|
    ensures run[..i + 1] == other[..i + 1]
  {
    hide SplitStep, ReachesLimit;
    if 0 < i {
      SameStart(first, limit, maxKeys, run, other, i - 1);
      assert run[i - 1] == run[..i][i - 1] == other[..i][i - 1] == other[i - 1];
      OneStep(run[i - 1], run[i], other[i]);
      assert run[..i + 1] == run[..i] + [run[i]] && other[..i + 1] == other[..i] + [other[i]];
    }
  }

  lemma NotLonger(first: Query, limit: int, maxKeys: int, run: seq<seq<Query>>, other: seq<seq<Query>>)
    requires IsRun(first, limit, maxKeys, run) && RunSoFar(first, limit, maxKeys, other)
    requires |run| <= |other| && run[..|run|] == other[..|run|]
    ensures run == other
  {
    hide SplitStep, ReachesLimit, IsFull;
    var n := |run| - 1;
    assert forall k :: 0 <= k <= n ==> run[k] == run[..|run|][k] == other[k];
    assert 0 < n && n + 1 < |other| ==> !ReachesLimit(other[n - 1], other[n], limit);
    if n + 1 < |other| {
      OneStep(other[n], other[n + 1], other[n + 1]);
    }
  }

  lemma RunStarts(first: Query, limit: int, maxKeys: int)
    ensures RunSoFar(first, limit, maxKeys, [[first]]) && !LastReachesLimit([[first]], limit)
  {
  }

  lemma RunGoesOn(first: Query, limit: int, maxKeys: int, run: seq<seq<Query>>, n: nat, t: seq<Query>)
    requires RunSoFar(first, limit, maxKeys, run) && !LastReachesLimit(run, limit)
    requires var s := run[|run| - 1]; |s| < maxKeys && IsFirstMinimum(s, n) && SplitAt(s, t, n)
    ensures RunSoFar(first, limit, maxKeys, run + [t])
  {
    hide SplitAt, IsFirstMinimum, ReachesLimit;
    assert SplitStep(run[|run| - 1], t);
    hide SplitStep;
    var next := run + [t];
    forall i, j | 0 <= i && j == i + 1 && j < |next| ensures |next[i]| < maxKeys && SplitStep(next[i], next[j]) {
      if j < |run| { assert next[i] == run[i] && next[j] == run[j]; } else { assert next[i] == run[|run| - 1]; }
    }
    forall i, j | 0 <= i && j == i + 1 && j < |next| - 1 ensures !ReachesLimit(next[i], next[j], limit) {
      assert next[i] == run[i] && next[j] == run[j];
      if j == |run| - 1 { assert i == |run| - 2; }
    }
  }

  /** Whether the limit is reached is seen from the quarters alone. */
  lemma LimitOfKids(s: seq<Query>, n: nat, kids: seq<Query>, limit: int)
    requires n < |s|
    ensures ReachesLimit(s, s[..n] + s[n + 1..] + kids, limit) <==>
            exists k :: 0 <= k < |kids| && kids[k].cell.level >= limit
  {
    var t := s[..n] + s[n + 1..] + kids;
    var m := |s| - 1;
    assert forall k :: 0 <= k < |kids| ==> t[m + k] == kids[k];
    assert forall k :: m <= k < |t| ==> t[k] == kids[k - m];
  }

  /** The splitting loop of ComputerGeoHash: the cells of a partition of the query, at most two more
      than asked for, unless the query is lost and the loop reads an entry of the empty list. */
  method SplitCells(bounds: Rect, area: Rect, limit: int, maxKeys: int)
    returns (s: seq<Query>, lost: bool, ghost run: seq<seq<Query>>)
    requires bounds.Positive() && limit <= MAXHASHLEVEL
    requires (Proper(area) && Within(area, bounds)) || (!Proper(area) && BeyondEdge(bounds, area))
    ensures lost <==> LostCut(bounds, area, limit, maxKeys)
    ensures !lost && Proper(area) ==> Finished(bounds, area, s, limit, maxKeys)
    ensures !lost && (!Proper(area) || area == bounds) ==> s == [Query(Cell(0, 0), bounds, Percent(area, bounds), area)]
    ensures IsRun(Query(Cell(0, 0), bounds, Percent(area, bounds), area), limit, maxKeys, run) && s == run[|run| - 1]
    ensures lost <==> s == []
  {
    hide RunSoFar, LastReachesLimit, IsFull;
    hide Alive, Finished, Lost, Losing, Percent, Load, Inside, Children, Proper, Within, BeyondEdge;
    lost := false;
    var first := Query(Cell(0, 0), bounds, Percent(area, bounds), area);
    s := [first];
    run := [s];
    RunStarts(first, limit, maxKeys);
    WholeIndex(bounds, area);
    ghost var losing := false;
    if Proper(area) {
      StartAlive(bounds, area, first, limit, maxKeys);
    } else {
      BeyondMeetsNone(first);
      losing := 1 < maxKeys && first.percentage < PERCENTAGE;
      OneLosing(first);
    }
    while |s| < maxKeys
      invariant losing ==> Losing(s) && LostCut(bounds, area, limit, maxKeys) && |s| < maxKeys
      invariant !losing && Proper(area) ==> Alive(bounds, area, s, limit, maxKeys) && s != []
      invariant area == bounds ==> s == [first] && first.percentage >= PERCENTAGE
      invariant !losing && !Proper(area) ==> s == [first] && !LostCut(bounds, area, limit, maxKeys)
      invariant run != [] && s == run[|run| - 1]
      invariant RunSoFar(first, limit, maxKeys, run) && !LastReachesLimit(run, limit)
      decreases Load(s, limit)
    {
      if |s| == 0 { return s, true, run; }
      var n := GetMinPercentagePos(s);
      if s[n].percentage >= PERCENTAGE {
        if losing { LosingEntry(s, n); }
        if Proper(area) { FullEnds(bounds, area, s, limit, maxKeys, n); }
        FullList(s, n);
        return;
      }
      if losing { LosingEntry(s, n); } else { SplitKeepsAlive(bounds, area, s, limit, maxKeys, n); }
      var kids := GetIntersectHash(s[n]);
      var stop := false;
      for i := 0 to |kids|
        invariant stop <==> exists k :: 0 <= k < i && kids[k].cell.level >= limit
      {
        if kids[i].cell.level >= limit {
          stop := true;
        }
      }
      ghost var was := s;
      s := s[..n] + s[n + 1..] + kids;
      RunGoesOn(first, limit, maxKeys, run, n, s);
      LimitOfKids(was, n, kids, limit);
      LastOfRun(run, s, limit);
      run := run + [s];
      if stop {
        LimitEnds(bounds, area, was, limit, maxKeys, n);
        return;
      }
      NoKids(was, n);
      SplitLowersLoad(was, n, kids, limit);
      if kids == [] && !losing {
        LossBegins(bounds, area, was, limit, maxKeys, n);
        losing := true;
      }
    }
    if Proper(area) { LongEnough(bounds, area, s, limit, maxKeys); }
  }

  lemma FullList(s: seq<Query>, n: nat)
    requires IsFirstMinimum(s, n) && s[n].percentage >= PERCENTAGE
    ensures IsFull(s)
  {
  }

  lemma LastOfRun(run: seq<seq<Query>>, t: seq<Query>, limit: int)
    requires run != []
    ensures LastReachesLimit(run + [t], limit) <==> ReachesLimit(run[|run| - 1], t, limit)
  {
    hide ReachesLimit;
    var next := run + [t];
    assert next[|next| - 2] == run[|run| - 1];
  }

  lemma OneLosing(q: Query)
    requires q.rect.Positive() && Children(q) == []
    ensures q.percentage < PERCENTAGE ==> Losing([q])
  {
    hide Children;
  }

  lemma WholeIndex(bounds: Rect, area: Rect)
    requires bounds.Positive()
    ensures area == bounds ==> Percent(area, bounds) == PERCENTAGE
  {
    FullShare(bounds.Width(), bounds.Height());
  }

  lemma FullShare(w: real, h: real)
    requires 0.0 < w && 0.0 < h
    ensures Share(w, h, w, h) == PERCENTAGE
  {
    var x := w * h * 100.0;
    Quotient(x, w, 100.0 * h);
    Quotient(100.0 * h, h, 100.0);
  }

  lemma Quotient(x: real, w: real, q: real)
    requires w != 0.0 && x == q * w
    ensures x / w == q
  {
  }

  lemma LosingEntry(s: seq<Query>, n: nat)
    requires Losing(s) && n < |s|
    ensures s[n].rect.Positive() && s[n].percentage < 100.0 && Children(s[n]) == [] && Inside(Children(s[n]), s[n])
    ensures Losing(s[..n] + s[n + 1..])
  {
    hide Children;
    var others := s[..n] + s[n + 1..];
    assert forall k :: 0 <= k < |others| ==> others[k] == if k < n then s[k] else s[k + 1];
  }

  lemma NoKids(s: seq<Query>, n: nat)
    requires n < |s|
    ensures s[..n] + s[n + 1..] + [] == s[..n] + s[n + 1..]
  {
  }

  lemma StartLevels(q: Query, limit: int)
    requires q.cell.level == 0
    ensures LevelsBelow([q], limit) && LevelsPacked([q])
  {
  }

  /** Key and cell of entry k, the list being read from its end. */
  ghost predicate KeysOf(keys: seq<int>, s: seq<Query>) {
    |keys| == |s| && forall k :: 0 <= k < |s| ==> IsKeyOf(keys[|s| - 1 - k], s[k].cell)
  }

  /** ComputerGeoHash: -1 unless the query lies in the bounds, up to the tolerance; otherwise the keys
      of a partition of the query as cut down to the bounds, at most two more than asked for, unless the
      query is lost. Fewer keys than asked for mean that a cell has reached the limit level or that the
      cells tile the query exactly. Beyond an edge, a query that is not lost gets the key of the whole
      index, as does one that does not even nearly intersect the bounds. */
  method ComputerGeoHash(bounds: Rect, geo: Rect, limit: int, maxKeys: int)
    returns (result: int, keys: seq<int>, lost: bool, ghost s: seq<Query>, ghost run: seq<seq<Query>>)
    requires bounds.Positive() && Proper(geo) && limit <= MAXHASHLEVEL
    ensures result == if Contains(bounds, geo) then 0 else -1
    ensures lost <==> Contains(bounds, geo) && LostCut(bounds, CutDown(bounds, geo), limit, maxKeys)
    ensures !Contains(bounds, geo) ==> keys == [-1]
    ensures Contains(bounds, geo) && !lost ==> KeysOf(keys, s)
    ensures Contains(bounds, geo) && !lost && Proper(CutDown(bounds, geo)) ==>
              Finished(bounds, CutDown(bounds, geo), s, limit, maxKeys)
    ensures Contains(bounds, geo) && !lost && (!Proper(CutDown(bounds, geo)) || CutDown(bounds, geo) == bounds) ==>
              keys == [0]
    ensures Contains(bounds, geo) ==>
              var area := CutDown(bounds, geo);
              && IsRun(Query(Cell(0, 0), bounds, Percent(area, bounds), area), limit, maxKeys, run)
              && s == run[|run| - 1]
  {
    hide Finished, Packed, Contains, LostCut, CutDown, Percent, IsRun;
    keys, s, lost, run := [], [], false, [];
    if !Contains(bounds, geo) { return -1, [-1], false, [], []; }
    var area := CutDown(bounds, geo);
    CutLeaves(bounds, geo);
    var found;
    found, lost, run := SplitCells(bounds, area, limit, maxKeys);
    s := found;
    result := 0;
    if lost { return; }
    if Proper(area) { FinishedPacked(bounds, area, found, limit, maxKeys); }
    KeyOfWholeIndex();
    var i := |found| - 1;
    while i >= 0
      invariant -1 <= i < |found| && |keys| == |found| - 1 - i
      invariant forall k :: i < k < |found| ==> IsKeyOf(keys[|found| - 1 - k], found[k].cell)
    {
      keys := keys + [Packed(found[i].cell)];
      i := i - 1;
    }
    assert found != [] ==> IsKeyOf(keys[|found| - 1], found[0].cell);
  }

  lemma KeyOfWholeIndex()
    ensures Packed(Cell(0, 0)) == 0
  {
  }

  lemma FinishedPacked(bounds: Rect, area: Rect, s: seq<Query>, limit: int, maxKeys: int)
    requires Finished(bounds, area, s, limit, maxKeys)
    ensures LevelsPacked(s)
  {
    hide Partition;
  }

  ghost predicate IsKeyOf(key: int, c: Cell) {
    c.level <= MAXHASHLEVEL && key == Packed(c)
  }

  // ----- which queries are lost -----

  /** A query with an area is never lost. */
  lemma AreaIsKept(bounds: Rect, area: Rect, limit: int, maxKeys: int)
    requires area.Positive()
    ensures !Lost(bounds, area, limit, maxKeys)
  {
    hide ReachedAt;
    if Lost(bounds, area, limit, maxKeys) {
      var n := LostAt(bounds, area, limit, maxKeys);
      LastLevelIsThin(bounds, area, n);
    }
  }

  /** A rectangle beyond the edge, within the tolerance, passes the test of the bounds and has an area;
      the cut turns it inside out and the first split loses it. */
  lemma BeyondEdgeIsLost()
    ensures var bounds := Rect(-180.0, -90.0, 180.0, 90.0);
            var geo := Rect(180.00000000002, 10.0, 180.00000000008, 20.0);
            && Contains(bounds, geo) && geo.Positive() && !Proper(CutDown(bounds, geo))
            && LostCut(bounds, CutDown(bounds, geo), 25, 20)
  {
    var bounds, geo := Rect(-180.0, -90.0, 180.0, 90.0), Rect(180.00000000002, 10.0, 180.00000000008, 20.0);
    assert CutDown(bounds, geo) == Rect(180.00000000002, 10.0, 180.0, 20.0);
  }

  /** Near the edge of small bounds the two tolerances differ: the rectangle passes the test, does not
      nearly intersect, and stands for the whole index. */
  lemma BeyondEdgeIsAll()
    ensures var bounds, geo := Rect(0.0, 0.0, 0.5, 0.5), Rect(0.50000000006, 0.1, 0.50000000008, 0.2);
            && Contains(bounds, geo) && geo.Positive() && CutDown(bounds, geo) == bounds
            && !LostCut(bounds, CutDown(bounds, geo), 25, 20)
  {
    var bounds := Rect(0.0, 0.0, 0.5, 0.5);
    AreaIsKept(bounds, bounds, 25, 20);
  }

  /** A segment of the prime meridian passes the test of the bounds and is lost by the first split. */
  lemma MeridianIsLost()
    ensures var bounds, geo := Rect(-180.0, -90.0, 180.0, 90.0), Rect(0.0, 10.0, 0.0, 20.0);
            && Contains(bounds, geo) && IntersectRect(bounds, geo) == geo
            && Lost(bounds, geo, 25, 20)
  {
    hide OnGrid;
    var bounds, geo := Rect(-180.0, -90.0, 180.0, 90.0), Rect(0.0, 10.0, 0.0, 20.0);
    FirstLines(bounds.left, bounds.right, geo.left);
    assert LastLevel(bounds, geo, 0) && ReachedAt(bounds, geo, 25, 20, 0);
  }

  /** A point on a line of level 2 is lost by the second split, and kept when one key is enough or
      level 1 is the limit. */
  lemma PointIsLost()
    ensures var bounds, geo := Rect(-180.0, -90.0, 180.0, 90.0), Rect(90.0, 10.0, 90.0, 10.0);
            Contains(bounds, geo) && Lost(bounds, geo, 25, 2) && !Lost(bounds, geo, 25, 1) && !Lost(bounds, geo, 1, 2)
  {
    hide OnGrid;
    var bounds, geo := Rect(-180.0, -90.0, 180.0, 90.0), Rect(90.0, 10.0, 90.0, 10.0);
    FirstLines(-180.0, 180.0, 90.0);
    FirstLines(-90.0, 90.0, 10.0);
    FirstLines(0.0, 180.0, 90.0);
    SecondLines(-180.0, 180.0, 90.0);
    assert LastLevel(bounds, geo, 1);
    PointMeetsOne(bounds, geo);
    assert ReachedAt(bounds, geo, 25, 2, 1);
    NotLost(bounds, geo, 25, 1, 1);
    NotLost(bounds, geo, 1, 2, 1);
  }

  lemma SecondLines(lo: real, hi: real, x: real)
    ensures OnGrid(lo, hi, x, 2) <==> OnGrid(lo, (lo + hi) / 2.0, x, 1) || OnGrid((lo + hi) / 2.0, hi, x, 1)
  {
    hide OnGrid;
    HalvesOfLines(lo, hi, x, 1);
  }

  lemma HalvesOfLines(lo: real, hi: real, x: real, n: nat)
    ensures OnGrid(lo, hi, x, n + 1) <==> OnGrid(lo, (lo + hi) / 2.0, x, n) || OnGrid((lo + hi) / 2.0, hi, x, n)
  {
  }

  lemma PointMeetsOne(bounds: Rect, geo: Rect)
    requires bounds == Rect(-180.0, -90.0, 180.0, 90.0) && geo == Rect(90.0, 10.0, 90.0, 10.0)
    ensures Met(bounds, geo, 1) == 1
  {
    assert forall r, a :: Met(r, a, 0) == if IsIntersect(a, r) then 1 else 0;
  }

  /** What the keys alone tell: decoded, they are cells that cover the query, no two of which share an
      interior point. */
  lemma KeysCover(bounds: Rect, area: Rect, keys: seq<int>, s: seq<Query>, p: Pt) returns (k: nat)
    requires Partition(bounds, area, s) && KeysOf(keys, s) && In(p, area)
    ensures k < |keys| && IsCell(s[|s| - 1 - k].cell) && keys[k] == Packed(s[|s| - 1 - k].cell)
    ensures In(p, RectOf(bounds, s[|s| - 1 - k].cell))
  {
    hide RectOf, Packed, Percent;
    assert CoveredBy(s, p);
    var j :| 0 <= j < |s| && In(p, s[j].query);
    assert Sound(bounds, area, s[j]);
    k := |s| - 1 - j;
  }
}
