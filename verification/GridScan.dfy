/** The merge scans over sorted arrays of 2D grid cells in geogridcoder/geomgrid_ops.cpp.
    A cell of level L has a 64-bit code whose bits below the first 2L are zero; it stands for the
    dyadic interval of all codes with the same first 2L bits. */
module GridScan {
  import opened Arith

  datatype Grid = Grid(level: nat, data: nat)

  /** The number of codes in a cell: 4 to the power 32 - level. */
  function Width(level: nat): (w: nat)
    requires level <= 32
    ensures 1 <= w
    decreases 32 - level
  {
    if level == 32 then 1 else 4 * Width(level + 1)
  }

  lemma {:induction false} WidthIsPower(level: nat)
    requires level <= 32
    ensures Width(level) == Pow2(64 - 2 * level)
    decreases 32 - level
  {
    if level < 32 {
      WidthIsPower(level + 1);
      assert Pow2(64 - 2 * level) == 2 * Pow2(63 - 2 * level);
    }
  }

  /** data & (0xFFFFFFFFFFFFFFFF << (64 - level * 2)): the bits below the level cleared. */
  function Masked(data: nat, level: nat): int
    requires level <= 32
  {
    data - data % Width(level)
  }

  ghost predicate IsCell(c: Grid) {
    1 <= c.level <= 32 && c.data % Width(c.level) == 0
  }

  ghost predicate Cells(s: seq<Grid>) {
    forall i :: 0 <= i < |s| ==> IsCell(s[i])
  }

  ghost predicate Sorted(s: seq<Grid>) {
    forall i, j :: 0 <= i <= j < |s| ==> s[i].data <= s[j].data
  }

  /** Code x belongs to cell c. */
  ghost predicate Has(c: Grid, x: int)
    requires IsCell(c)
  {
    c.data <= x < c.data + Width(c.level)
  }

  /** c is d or an ancestor of d. */
  ghost predicate Contains(c: Grid, d: Grid)
    requires IsCell(c) && IsCell(d)
  {
    c.level <= d.level && Has(c, d.data)
  }

  ghost predicate Overlap(c: Grid, d: Grid)
    requires IsCell(c) && IsCell(d)
  {
    Contains(c, d) || Contains(d, c)
  }

  // ----- dyadic intervals -----

  lemma {:induction false} WidthsDivide(l: nat, m: nat)
    requires l <= m <= 32
    ensures Width(l) % Width(m) == 0 && Width(m) <= Width(l)
    decreases m - l
  {
    if l < m {
      WidthsDivide(l + 1, m);
      MultipleOf(Width(l), 4, Width(l + 1));
      MultipleTrans(Width(l), Width(l + 1), Width(m));
    } else {
      MultipleOf(Width(l), 1, Width(m));
    }
  }

  lemma AlignedToCoarser(x: nat, l: nat, m: nat)
    requires l <= m <= 32 && x % Width(l) == 0
    ensures x % Width(m) == 0
  {
    WidthsDivide(l, m);
    MultipleTrans(x, Width(l), Width(m));
  }

  lemma MaskedIs(x: nat, l: nat)
    requires l <= 32
    ensures Masked(x, l) <= x < Masked(x, l) + Width(l) && Masked(x, l) % Width(l) == 0
  {
    DivModOf(x, x / Width(l), x % Width(l), Width(l));
    MultipleOf(x - x % Width(l), x / Width(l), Width(l));
  }

  /** Masking with the coarser level compares the two cells as the scans do. */
  lemma CompareMasked(c: Grid, d: Grid)
    requires IsCell(c) && IsCell(d) && c.level <= d.level
    ensures Masked(c.data, c.level) == c.data
    ensures Contains(c, d) <==> Masked(d.data, c.level) == c.data
    ensures Masked(d.data, c.level) < c.data ==> d.data + Width(d.level) <= c.data
    ensures c.data < Masked(d.data, c.level) ==> c.data + Width(c.level) <= d.data
    ensures Contains(c, d) ==> d.data + Width(d.level) <= c.data + Width(c.level)
  {
    MaskedIs(d.data, c.level);
    var v := Masked(d.data, c.level);
    if v < c.data {
      MultiplesApart(v, c.data, Width(c.level));
      AlignedToCoarser(c.data, c.level, d.level);
      MultiplesApart(d.data, c.data, Width(d.level));
    } else if c.data < v {
      MultiplesApart(c.data, v, Width(c.level));
    } else {
      WidthsDivide(c.level, d.level);
      AlignedToCoarser(c.data, c.level, d.level);
      AlignedToCoarser(Width(c.level), c.level, d.level);
      EndsInside(c.data, Width(c.level), d.data, Width(d.level));
    }
  }

  lemma EndsInside(u: nat, w: nat, x: nat, v: nat)
    requires 1 <= v && 1 <= w && u % v == 0 && w % v == 0 && x % v == 0 && u <= x < u + w
    ensures x + v <= u + w
  {
    MultipleSum(u, w, v);
    MultiplesApart(x, u + w, v);
  }

  /** Overlapping is sharing a code: dyadic intervals are nested or disjoint. */
  lemma OverlapIsSharing(c: Grid, d: Grid)
    requires IsCell(c) && IsCell(d)
    ensures Overlap(c, d) <==> exists x :: Has(c, x) && Has(d, x)
  {
    if c.level <= d.level { CompareMasked(c, d); }
    if d.level <= c.level { CompareMasked(d, c); }
    if Contains(c, d) { assert Has(c, d.data) && Has(d, d.data); }
    if Contains(d, c) { assert Has(c, c.data) && Has(d, c.data); }
  }

  // ----- array_grid_overlap: a common code -----

  method GridOverlap(a: seq<Grid>, b: seq<Grid>) returns (r: bool)
    requires Sorted(a) && Sorted(b)
    ensures r <==> exists x, y :: 0 <= x < |a| && 0 <= y < |b| && a[x].data == b[y].data
  {
    var i, j := 0, 0;
    while i < |a| && j < |b|
      invariant 0 <= i <= |a| && 0 <= j <= |b|
      invariant forall x, y :: 0 <= x < |a| && 0 <= y < |b| && (x < i || y < j) ==> a[x].data != b[y].data
    {
      if a[i].data < b[j].data {
        i := i + 1;
      } else if a[i].data == b[j].data {
        return true;
      } else {
        j := j + 1;
      }
    }
    return false;
  }

  // ----- array_grid_spanoverlap: equal or nested cells -----

  /** A cell that ends before the first remaining cell of the other side starts meets none of them. */
  lemma SkippedMeetsNone(c: Grid, s: seq<Grid>, j: int)
    requires IsCell(c) && Cells(s) && Sorted(s) && 0 <= j < |s| && c.data + Width(c.level) <= s[j].data
    ensures forall y :: j <= y < |s| ==> !Overlap(c, s[y])
  {
    forall y | j <= y < |s| ensures !Overlap(c, s[y]) {
      assert s[j].data <= s[y].data;
    }
  }

  /** The scan is complete: it answers true exactly when some pair of cells is equal or nested. */
  method SpanOverlap(a: seq<Grid>, b: seq<Grid>) returns (r: bool)
    requires Cells(a) && Cells(b) && Sorted(a) && Sorted(b)
    ensures r <==> exists x, y :: 0 <= x < |a| && 0 <= y < |b| && Overlap(a[x], b[y])
  {
    var i, j := 0, 0;
    while i < |a| && j < |b|
      invariant 0 <= i <= |a| && 0 <= j <= |b|
      invariant forall x, y :: 0 <= x < |a| && 0 <= y < |b| && (x < i || y < j) ==> !Overlap(a[x], b[y])
    {
      var levelA, levelB := a[i].level, b[j].level;
      var level := if levelA > levelB then levelB else levelA;
      var dataA := Masked(a[i].data, level);
      var dataB := Masked(b[j].data, level);
      MaskedCells(a[i], b[j]);
      if dataA < dataB {
        SkippedMeetsNone(a[i], b, j);
        i := i + 1;
      } else if dataA == dataB {
        return true;
      } else {
        SkippedMeetsNone(b[j], a, i);
        OverlapSymmetric(b[j], a, i);
        j := j + 1;
      }
    }
    return false;
  }

  lemma OverlapSymmetric(c: Grid, s: seq<Grid>, j: int)
    requires IsCell(c) && Cells(s) && 0 <= j
    requires forall y :: j <= y < |s| ==> !Overlap(c, s[y])
    ensures forall y :: j <= y < |s| ==> !Overlap(s[y], c)
  {
  }

  lemma MaskedCells(c: Grid, d: Grid)
    requires IsCell(c) && IsCell(d)
    ensures var level := if c.level > d.level then d.level else c.level;
            && (Masked(c.data, level) == Masked(d.data, level) <==> Overlap(c, d))
            && (Masked(c.data, level) < Masked(d.data, level) ==> c.data + Width(c.level) <= d.data)
            && (Masked(c.data, level) > Masked(d.data, level) ==> d.data + Width(d.level) <= c.data)
  {
    if c.level <= d.level { CompareMasked(c, d); }
    if d.level <= c.level { CompareMasked(d, c); }
  }

  // ----- gridarray_comparepartial: matching index keys against a query cell -----

  function ComparePartial(query: Grid, key: Grid): int
    requires IsCell(query) && IsCell(key)
  {
    var level := if query.level > key.level then key.level else query.level;
    var pl, pr := Masked(query.data, level), Masked(key.data, level);
    if pr == pl then 0 else if pr < pl then -1 else 1
  }

  /** Zero for equal or nested cells; otherwise the key lies wholly before or wholly after the query. */
  lemma ComparePartialMeans(query: Grid, key: Grid)
    requires IsCell(query) && IsCell(key)
    ensures ComparePartial(query, key) == 0 <==> Overlap(query, key)
    ensures ComparePartial(query, key) == -1 <==> key.data + Width(key.level) <= query.data
    ensures ComparePartial(query, key) == 1 <==> query.data + Width(query.level) <= key.data
  {
    MaskedCells(query, key);
    OverlapIsSharing(query, key);
    if Overlap(query, key) {
      var x :| Has(query, x) && Has(key, x);
    }
  }

  /** An index scan over sorted keys may stop at the first result of one: no later key matches. */
  lemma StoppingAtOneIsSafe(query: Grid, keys: seq<Grid>, i: nat, j: nat)
    requires IsCell(query) && Cells(keys) && Sorted(keys) && i <= j < |keys|
    requires ComparePartial(query, keys[i]) == 1
    ensures ComparePartial(query, keys[j]) == 1 && !Overlap(query, keys[j])
  {
    ComparePartialMeans(query, keys[i]);
    ComparePartialMeans(query, keys[j]);
  }

  // ----- array_grid_contains: every cell of b in one cell of a -----

  /** Some cell of a contains d. */
  ghost predicate Contained(a: seq<Grid>, d: Grid)
    requires Cells(a) && IsCell(d)
  {
    exists x :: 0 <= x < |a| && Contains(a[x], d)
  }

  ghost predicate AllContained(a: seq<Grid>, b: seq<Grid>)
    requires Cells(a) && Cells(b)
  {
    forall y :: 0 <= y < |b| ==> Contained(a, b[y])
  }

  /** No cell is nested in, or a duplicate of, another one. */
  ghost predicate Antichain(s: seq<Grid>)
    requires Cells(s)
  {
    forall x, y :: 0 <= x < |s| && 0 <= y < |s| && x != y ==> !Contains(s[x], s[y])
  }

  /** No cell of b that occurs in a contains a later cell of b. */
  ghost predicate NoRepeats(a: seq<Grid>, b: seq<Grid>, upTo: int)
    requires Cells(b)
  {
    forall x, y, z :: 0 <= x < |a| && 0 <= y < z < upTo && z < |b| && a[x] == b[y] ==> !Contains(b[y], b[z])
  }

  ghost predicate Levels(s: seq<Grid>) {
    forall i :: 0 <= i < |s| ==> 1 <= s[i].level <= 32
  }

  /** The comparison of the scan finds d in c: equal, or equal when cut to the level of c. */
  predicate Matches(c: Grid, d: Grid)
    requires c.level <= 32 && d.level <= 32
  {
    && c.level <= d.level
    && if c.level == d.level then c.data == d.data else Masked(c.data, c.level) == Masked(d.data, c.level)
  }

  /** The comparison finds c after d. */
  predicate After(c: Grid, d: Grid)
    requires c.level <= 32 && d.level <= 32
  {
    if c.level < d.level then Masked(c.data, c.level) > Masked(d.data, c.level)
    else if d.level < c.level then Masked(c.data, d.level) > Masked(d.data, d.level)
    else c.data > d.data
  }

  /** Once the comparison has found a cell of a after a cell of b, no later cell of a matches that one. */
  ghost predicate Orderly(a: seq<Grid>, b: seq<Grid>)
    requires Levels(a) && Levels(b)
  {
    forall i, k, j :: 0 <= i <= k < |a| && 0 <= j < |b| && After(a[i], b[j]) ==> !Matches(a[k], b[j])
  }

  lemma CellsMatch(c: Grid, d: Grid)
    requires IsCell(c) && IsCell(d)
    ensures Matches(c, d) <==> Contains(c, d)
    ensures After(c, d) ==> d.data + Width(d.level) <= c.data
  {
    if c.level <= d.level { CompareMasked(c, d); }
    if d.level <= c.level { CompareMasked(d, c); }
  }

  lemma CellsAreOrderly(a: seq<Grid>, b: seq<Grid>)
    requires Cells(a) && Cells(b) && Sorted(a)
    ensures Levels(a) && Levels(b) && Orderly(a, b)
  {
    forall i, k, j | 0 <= i <= k < |a| && 0 <= j < |b| && After(a[i], b[j]) ensures !Matches(a[k], b[j]) {
      hide Matches, After;
      CellsMatch(a[i], b[j]);
      CellsMatch(a[k], b[j]);
    }
  }

  /** An assignment of the first cells of b, in their order, to cells of a that match them; a cell of a
      that has been assigned its equal takes no further ones. */
  ghost predicate Assigns(a: seq<Grid>, b: seq<Grid>, f: seq<nat>)
    requires Levels(a) && Levels(b)
  {
    && |f| <= |b|
    && (forall j :: 0 <= j < |f| ==> f[j] < |a| && Matches(a[f[j]], b[j]))
    && (forall j, k :: 0 <= j < k < |f| ==> f[j] <= f[k] && (a[f[j]] == b[j] ==> f[j] < f[k]))
  }

  ghost predicate Assignable(a: seq<Grid>, b: seq<Grid>)
    requires Levels(a) && Levels(b)
  {
    exists f: seq<nat> :: |f| == |b| && Assigns(a, b, f)
  }

  /** The cells of b counted so far are assigned to the cells of a up to i. */
  ghost predicate AssignedUpTo(a: seq<Grid>, b: seq<Grid>, f: seq<nat>, i: int)
    requires Levels(a) && Levels(b)
  {
    Assigns(a, b, f) && forall k :: 0 <= k < |f| ==> f[k] <= i && (a[f[k]] == b[k] ==> f[k] < i)
  }

  lemma AssignNext(a: seq<Grid>, b: seq<Grid>, f: seq<nat>, i: nat, i': int)
    requires Levels(a) && Levels(b) && AssignedUpTo(a, b, f, i) && i < |a| && |f| < |b|
    requires Matches(a[i], b[|f|]) && i <= i' && (a[i] == b[|f|] ==> i < i')
    ensures AssignedUpTo(a, b, f + [i], i')
  {
    hide Matches;
    var g := f + [i];
    assert forall k :: 0 <= k < |f| ==> g[k] == f[k];
  }

  /** The scan has not passed the cell of a that the assignment f gives to b[j]. */
  ghost predicate Ahead(b: seq<Grid>, f: seq<nat>, i: int, j: int) {
    |f| == |b| && 0 <= j <= |b| && (j < |b| ==> i <= f[j])
  }

  lemma AheadAfterMatch(a: seq<Grid>, b: seq<Grid>, f: seq<nat>, i: nat, j: nat, i': int)
    requires Levels(a) && Levels(b) && Assigns(a, b, f) && Ahead(b, f, i, j) && i < |a| && j < |b|
    requires i' == i || (i' == i + 1 && a[i] == b[j])
    ensures Ahead(b, f, i', j + 1)
  {
    hide Matches;
    if j + 1 < |b| {
      assert f[j] <= f[j + 1] && (a[f[j]] == b[j] ==> f[j] < f[j + 1]);
    }
  }

  lemma AheadAfterSkip(a: seq<Grid>, b: seq<Grid>, f: seq<nat>, i: nat, j: nat)
    requires Levels(a) && Levels(b) && Assigns(a, b, f) && Ahead(b, f, i, j) && i < |a| && j < |b|
    requires !Matches(a[i], b[j])
    ensures Ahead(b, f, i + 1, j)
  {
    hide Matches;
    assert Matches(a[f[j]], b[j]);
  }

  /** A cell of b that comes before the rest of a has been assigned no cell of the rest. */
  lemma AheadIsInside(a: seq<Grid>, b: seq<Grid>, f: seq<nat>, i: nat, j: nat)
    requires Levels(a) && Levels(b) && Orderly(a, b) && Assigns(a, b, f) && Ahead(b, f, i, j) && i < |a| && j < |b|
    ensures !After(a[i], b[j])
  {
    hide Matches, After;
    assert Matches(a[f[j]], b[j]);
  }

  // ----- when an assignment exists -----

  lemma ContainsTrans(c: Grid, d: Grid, e: Grid)
    requires IsCell(c) && IsCell(d) && IsCell(e) && Contains(c, d) && Contains(d, e)
    ensures Contains(c, e)
  {
    CompareMasked(c, d);
  }

  /** In an antichain at most one cell contains a given cell. */
  lemma TwoContainers(a: seq<Grid>, x: int, i: int, d: Grid)
    requires Cells(a) && Antichain(a) && IsCell(d) && 0 <= x < |a| && 0 <= i < |a|
    requires Contains(a[x], d) && Contains(a[i], d)
    ensures x == i
  {
    if a[x].level <= a[i].level {
      NestedByShared(a[x], a[i], d);
    } else {
      NestedByShared(a[i], a[x], d);
    }
  }

  lemma NestedByShared(c: Grid, e: Grid, d: Grid)
    requires IsCell(c) && IsCell(e) && IsCell(d) && c.level <= e.level && Contains(c, d) && Contains(e, d)
    ensures Contains(c, e)
  {
    CompareMasked(c, e);
    CompareMasked(c, d);
    CompareMasked(e, d);
  }

  lemma AssignableContains(a: seq<Grid>, b: seq<Grid>)
    requires Levels(a) && Levels(b) && Cells(a) && Cells(b) && Assignable(a, b)
    ensures AllContained(a, b)
  {
    hide Contains, Matches, IsCell;
    var f: seq<nat> :| |f| == |b| && Assigns(a, b, f);
    forall y | 0 <= y < |b| ensures Contained(a, b[y]) {
      CellsMatch(a[f[y]], b[y]);
    }
  }

  /** For every cell of b the first cell of a that contains it. */
  ghost predicate FirstContainers(a: seq<Grid>, b: seq<Grid>, f: seq<nat>)
    requires Cells(a) && Cells(b)
  {
    && |f| <= |b|
    && (forall j :: 0 <= j < |f| ==> f[j] < |a| && Contains(a[f[j]], b[j]))
    && (forall j, x :: 0 <= j < |f| && 0 <= x < f[j] && x < |a| ==> !Contains(a[x], b[j]))
  }

  lemma {:induction false} FindFirst(a: seq<Grid>, d: Grid, n: nat) returns (x: nat)
    requires Cells(a) && IsCell(d) && n < |a| && Contains(a[n], d)
    ensures x < |a| && Contains(a[x], d) && forall y :: 0 <= y < x ==> !Contains(a[y], d)
    decreases n
  {
    hide Contains, IsCell;
    if y: nat :| y < n && Contains(a[y], d) {
      x := FindFirst(a, d, y);
    } else {
      x := n;
    }
  }

  lemma {:induction false} FindContainers(a: seq<Grid>, b: seq<Grid>, n: nat) returns (f: seq<nat>)
    requires Cells(a) && Cells(b) && AllContained(a, b) && n <= |b|
    ensures |f| == n && FirstContainers(a, b, f)
  {
    hide Contains, IsCell;
    f := [];
    if 0 < n {
      var g := FindContainers(a, b, n - 1);
      assert Contained(a, b[n - 1]);
      var x: nat :| x < |a| && Contains(a[x], b[n - 1]);
      var y := FindFirst(a, b[n - 1], x);
      f := g + [y];
      assert forall k :: 0 <= k < |g| ==> f[k] == g[k];
    }
  }

  /** Of two cells whose containers stand in the other order, the earlier one lies in both containers. */
  lemma Crossed(c: Grid, e: Grid, d: Grid, d': Grid)
    requires IsCell(c) && IsCell(e) && IsCell(d) && IsCell(d') && Contains(c, d) && Contains(e, d')
    requires e.data <= c.data && d.data <= d'.data
    ensures Contains(e, d) || (Contains(d, e) && Contains(d, d'))
  {
    assert Has(e, d.data) && Has(d, d.data);
    OverlapIsSharing(e, d);
    if Contains(d, e) { ContainsTrans(d, e, d'); }
  }

  /** First containers are an assignment unless a cell of b contains a later one. */
  lemma ContainersAssign(a: seq<Grid>, b: seq<Grid>, f: seq<nat>)
    requires Cells(a) && Cells(b) && Sorted(a) && Sorted(b) && FirstContainers(a, b, f) && |f| == |b|
    requires forall j, k :: 0 <= j < k < |f| && f[j] >= f[k] && (a[f[j]] == b[j] || f[j] > f[k]) ==>
               !Contains(b[j], b[k])
    ensures Levels(a) && Levels(b) && Assigns(a, b, f)
  {
    hide Contains, Matches;
    forall j | 0 <= j < |f| ensures f[j] < |a| && Matches(a[f[j]], b[j]) {
      CellsMatch(a[f[j]], b[j]);
    }
    forall j, k | 0 <= j < k < |f| ensures f[j] <= f[k] && (a[f[j]] == b[j] ==> f[j] < f[k]) {
      if f[j] > f[k] {
        Crossed(a[f[j]], a[f[k]], b[j], b[k]);
      }
    }
  }

  /** When b has no nested or repeated cells, containment is enough. */
  lemma AntichainAssigns(a: seq<Grid>, b: seq<Grid>)
    requires Levels(a) && Levels(b) && Cells(a) && Cells(b) && Sorted(a) && Sorted(b) && Antichain(b)
    ensures Assignable(a, b) <==> AllContained(a, b)
  {
    hide Contains, IsCell, Assigns, Contained;
    if Assignable(a, b) { AssignableContains(a, b); }
    if AllContained(a, b) {
      var f := FindContainers(a, b, |b|);
      ContainersAssign(a, b, f);
    }
  }

  /** When a has none, the only other condition is that no cell of b that occurs in a contains a later
      cell of b. */
  lemma AssignsToAntichain(a: seq<Grid>, b: seq<Grid>)
    requires Levels(a) && Levels(b) && Cells(a) && Cells(b) && Sorted(a) && Sorted(b) && Antichain(a)
    ensures Assignable(a, b) <==> AllContained(a, b) && NoRepeats(a, b, |b|)
  {
    hide Contains, Matches, IsCell, Contained;
    if Assignable(a, b) {
      AssignableContains(a, b);
      var f: seq<nat> :| |f| == |b| && Assigns(a, b, f);
      AssignedHasNoRepeats(a, b, f);
    }
    if AllContained(a, b) && NoRepeats(a, b, |b|) {
      var f := FindContainers(a, b, |b|);
      forall j, k | 0 <= j < k < |f| && f[j] >= f[k] && (a[f[j]] == b[j] || f[j] > f[k]) ensures !Contains(b[j], b[k]) {
        if Contains(b[j], b[k]) { SameContainer(a, b, f, j, k); }
      }
      ContainersAssign(a, b, f);
    }
  }

  lemma SameContainer(a: seq<Grid>, b: seq<Grid>, f: seq<nat>, j: nat, k: nat)
    requires Cells(a) && Cells(b) && Antichain(a) && FirstContainers(a, b, f)
    requires j < k < |f| && Contains(b[j], b[k])
    ensures f[j] == f[k]
  {
    hide Contains, IsCell;
    assert Contains(a[f[j]], b[j]) && Contains(a[f[k]], b[k]);
    ContainsTrans(a[f[j]], b[j], b[k]);
    TwoContainers(a, f[j], f[k], b[k]);
  }

  lemma AssignedHasNoRepeats(a: seq<Grid>, b: seq<Grid>, f: seq<nat>)
    requires Levels(a) && Levels(b) && Cells(a) && Cells(b) && Antichain(a) && Assigns(a, b, f) && |f| == |b|
    ensures NoRepeats(a, b, |b|)
  {
    hide Contains, Matches, IsCell;
    forall x, y, z | 0 <= x < |a| && 0 <= y < z < |b| && a[x] == b[y] ensures !Contains(b[y], b[z]) {
      if Contains(b[y], b[z]) {
        CellsMatch(a[f[y]], b[y]);
        CellsMatch(a[f[z]], b[z]);
        ContainsItself(b[y]);
        TwoContainers(a, x, f[y], b[y]);
        TwoContainers(a, x, f[z], b[z]);
      }
    }
  }

  lemma ContainsItself(c: Grid)
    requires IsCell(c)
    ensures Contains(c, c)
  {
  }

  /** The scan never claims an assignment that does not exist, and finds one that does if the comparison
      orders the arrays, as it does for sorted cells. For cells it is exact for containment when b is an
      antichain; with an antichain a it answers true exactly when every cell of b is contained and no
      cell of b repeats inside one that occurs in a. */
  method GridContains(a: seq<Grid>, b: seq<Grid>) returns (r: bool)
    requires Levels(a) && Levels(b)
    ensures r ==> Assignable(a, b)
    ensures Orderly(a, b) ==> (r <==> Assignable(a, b))
    ensures Cells(a) && Cells(b) && Sorted(a) && Sorted(b) ==>
              && (r <==> Assignable(a, b)) && (r ==> AllContained(a, b))
              && (Antichain(b) ==> (r <==> AllContained(a, b)))
              && (Antichain(a) ==> (r <==> AllContained(a, b) && NoRepeats(a, b, |b|)))
  {
    hide Assigns, AssignedUpTo, Ahead, Orderly, Assignable;
    var i, j, n := 0, 0, 0;
    ghost var g: seq<nat> := [];
    ghost var sure, f := StartScan(a, b);
    while i < |a| && j < |b|
      invariant 0 <= i <= |a| && 0 <= n <= j <= |b|
      invariant n == j ==> |g| == j && AssignedUpTo(a, b, g, i)
      invariant sure ==> n == j && Assigns(a, b, f) && Ahead(b, f, i, j)
      decreases |a| - i + |b| - j
    {
      var levelA, levelB := a[i].level, b[j].level;
      if levelA != levelB {
        if levelA < levelB {
          var dataA, dataB := Masked(a[i].data, levelA), Masked(b[j].data, levelA);
          if dataA < dataB {
            if sure { AheadAfterSkip(a, b, f, i, j); }
            if n == j { UpToMore(a, b, g, i); }
            i := i + 1;
          } else if dataA == dataB {
            if sure { AheadAfterMatch(a, b, f, i, j, i); }
            if n == j { AssignNext(a, b, g, i, i); g := g + [i]; }
            n := n + 1;
            j := j + 1;
          } else {
            if sure { AheadIsInside(a, b, f, i, j); }
            break;
          }
        } else if levelA > levelB {
          var dataA, dataB := Masked(a[i].data, levelB), Masked(b[j].data, levelB);
          if dataA > dataB {
            if sure { AheadIsInside(a, b, f, i, j); }
            j := j + 1;
          } else {
            if sure { AheadAfterSkip(a, b, f, i, j); }
            if n == j { UpToMore(a, b, g, i); }
            i := i + 1;
          }
        }
      } else {
        var dataA, dataB := a[i].data, b[j].data;
        if dataA < dataB {
          if sure { AheadAfterSkip(a, b, f, i, j); }
          if n == j { UpToMore(a, b, g, i); }
          i := i + 1;
        } else if dataA == dataB {
          if sure { AheadAfterMatch(a, b, f, i, j, i + 1); }
          if n == j { AssignNext(a, b, g, i, i + 1); g := g + [i]; }
          n := n + 1;
          i := i + 1;
          j := j + 1;
        } else {
          if sure { AheadIsInside(a, b, f, i, j); }
          break;
        }
      }
    }
    if n == |b| {
      AllAssigned(a, b, g, i);
    } else if sure && j < |b| {
      NoneLeft(a, b, f, i, j);
    }
    r := n == |b|;
    ScanOfCells(a, b, r);
  }

  /** What an exact scan answers for cells. */
  lemma ScanOfCells(a: seq<Grid>, b: seq<Grid>, r: bool)
    requires Levels(a) && Levels(b) && (Orderly(a, b) ==> (r <==> Assignable(a, b)))
    ensures Cells(a) && Cells(b) && Sorted(a) && Sorted(b) ==>
              && (r <==> Assignable(a, b)) && (r ==> AllContained(a, b))
              && (Antichain(b) ==> (r <==> AllContained(a, b)))
              && (Antichain(a) ==> (r <==> AllContained(a, b) && NoRepeats(a, b, |b|)))
  {
    hide Assignable, AllContained, Antichain, NoRepeats, Orderly;
    if Cells(a) && Cells(b) && Sorted(a) && Sorted(b) {
      CellsAreOrderly(a, b);
      if r { AssignableContains(a, b); }
      if Antichain(b) { AntichainAssigns(a, b); }
      if Antichain(a) { AssignsToAntichain(a, b); }
    }
  }

  lemma StartScan(a: seq<Grid>, b: seq<Grid>) returns (sure: bool, f: seq<nat>)
    requires Levels(a) && Levels(b)
    ensures AssignedUpTo(a, b, [], 0)
    ensures sure == (Orderly(a, b) && Assignable(a, b)) && (sure ==> Assigns(a, b, f) && Ahead(b, f, 0, 0))
  {
    hide Matches, Orderly;
    sure, f := Orderly(a, b) && Assignable(a, b), [];
    if sure { f :| |f| == |b| && Assigns(a, b, f); }
  }

  lemma UpToMore(a: seq<Grid>, b: seq<Grid>, g: seq<nat>, i: int)
    requires Levels(a) && Levels(b) && AssignedUpTo(a, b, g, i)
    ensures AssignedUpTo(a, b, g, i + 1)
  {
    hide Matches;
  }

  lemma AllAssigned(a: seq<Grid>, b: seq<Grid>, g: seq<nat>, i: int)
    requires Levels(a) && Levels(b) && AssignedUpTo(a, b, g, i) && |g| == |b|
    ensures Assignable(a, b)
  {
    hide Matches;
  }

  lemma NoneLeft(a: seq<Grid>, b: seq<Grid>, f: seq<nat>, i: int, j: int)
    requires Levels(a) && Levels(b) && Assigns(a, b, f) && Ahead(b, f, i, j) && j < |b|
    ensures i < |a|
  {
    hide Matches;
    assert f[j] < |a|;
  }

  /** With repeats the scan misses containment: [c, c] lies in [c], and the answer is false. */
  method RepeatedCellIsMissed() returns (r: bool)
    ensures var c := Grid(32, 0); Cells([c]) && Cells([c, c]) && AllContained([c], [c, c]) && !r
  {
    hide Contains;
    var c := Grid(32, 0);
    TwiceContained(c);
    r := GridContains([c], [c, c]);
  }

  lemma TwiceContained(c: Grid)
    requires IsCell(c)
    ensures Cells([c]) && Cells([c, c]) && Sorted([c]) && Sorted([c, c]) && Antichain([c])
    ensures AllContained([c], [c, c]) && !NoRepeats([c], [c, c], 2)
  {
    ContainsItself(c);
    assert Contains([c][0], [c, c][0]) && Contains([c][0], [c, c][1]);
    assert [c][0] == [c, c][0] && Contains([c, c][0], [c, c][1]);
  }

  // ----- array_grid2d_unique: the codes without repeats, in place -----

  function DataOf(s: seq<Grid>): (r: seq<nat>)
    ensures |r| == |s|
  {
    seq(|s|, i requires 0 <= i < |s| => s[i].data)
  }

  /** The list without neighbouring repeats. */
  function Dedup(s: seq<nat>): (r: seq<nat>)
    ensures s != [] ==> r != [] && r[|r| - 1] == s[|s| - 1]
    ensures |r| <= |s|
  {
    if |s| <= 1 then s
    else
      var n := |s| - 1;
      if s[n] == s[n - 1] then Dedup(s[..n]) else Dedup(s[..n]) + [s[n]]
  }

  /** The cells that array_grid2d_unique leaves. */
  function UniqueCells(s: seq<Grid>): seq<Grid> {
    var d := Dedup(DataOf(s));
    seq(|d|, k requires 0 <= k < |d| => Grid(s[k].level, d[k]))
  }

  /** For a sorted list that is each code once, in strictly increasing order. */
  lemma {:induction false} DedupIsSet(s: seq<nat>)
    requires forall i, j :: 0 <= i <= j < |s| ==> s[i] <= s[j]
    ensures forall i, j :: 0 <= i < j < |Dedup(s)| ==> Dedup(s)[i] < Dedup(s)[j]
    ensures forall x :: x in Dedup(s) <==> x in s
  {
    if 1 < |s| {
      var n := |s| - 1;
      DedupIsSet(s[..n]);
      var d := Dedup(s[..n]);
      forall x ensures x in Dedup(s) <==> x in s {
        assert x in s <==> x in s[..n] || x == s[n];
      }
      forall i | 0 <= i < |d| ensures d[i] <= s[n - 1] {
        assert d[|d| - 1] == s[n - 1];
      }
    }
  }

  lemma DedupNext(s: seq<nat>, t: int)
    requires 0 <= t < |s|
    ensures Dedup(s[..t + 1]) == if 0 < t && s[t] == s[t - 1] then Dedup(s[..t]) else Dedup(s[..t]) + [s[t]]
  {
    assert s[..t + 1][..t] == s[..t];
  }

  ghost predicate SameLevels(was: seq<Grid>, now: seq<Grid>) {
    |now| == |was| && forall k :: 0 <= k < |was| ==> now[k].level == was[k].level
  }

  ghost predicate RestKept(was: seq<Grid>, now: seq<Grid>, tmp: int) {
    |now| == |was| && forall k :: 0 <= tmp <= k < |was| ==> now[k] == was[k]
  }

  /** The codes up to dr are the list without repeats of those before tmp. */
  ghost predicate Compacted(was: seq<Grid>, now: seq<Grid>, tmp: int, dr: int) {
    && 0 <= dr <= tmp <= |was| == |now| && dr < |was|
    && (if tmp == 0 then dr == 0 else dr < tmp && DataOf(now[..dr + 1]) == Dedup(DataOf(was)[..tmp]))
  }

  /** Where the scan stands: the part before tmp is compacted, the rest is as it was, and every
      level is as it was. */
  ghost predicate UniqueSoFar(was: seq<Grid>, now: seq<Grid>, tmp: int, dr: int) {
    SameLevels(was, now) && RestKept(was, now, tmp) && Compacted(was, now, tmp, dr)
  }

  lemma UniqueLast(was: seq<Grid>, now: seq<Grid>, tmp: int, dr: int)
    requires Compacted(was, now, tmp, dr) && 0 < tmp
    ensures now[dr].data == was[tmp - 1].data
  {
    hide Dedup;
    var kept := DataOf(was)[..tmp];
    assert kept[|kept| - 1] == was[tmp - 1].data;
    assert DataOf(now[..dr + 1])[dr] == now[dr].data;
  }

  lemma CompactedRepeat(was: seq<Grid>, now: seq<Grid>, tmp: int, dr: int)
    requires Compacted(was, now, tmp, dr) && tmp < |was| && now[tmp] == was[tmp] && was[tmp].data == now[dr].data
    ensures Compacted(was, now, tmp + 1, dr)
  {
    hide Dedup;
    if 0 < tmp {
      UniqueLast(was, now, tmp, dr);
      DedupNext(DataOf(was), tmp);
    } else {
      FirstAlone(DataOf(was));
      assert DataOf(now[..1]) == [was[0].data];
    }
  }

  lemma DataOfNext(now: seq<Grid>, next: seq<Grid>, n: int)
    requires |next| == |now| && 0 <= n < |now| && forall k :: 0 <= k < n ==> next[k] == now[k]
    ensures DataOf(next[..n + 1]) == DataOf(now[..n]) + [next[n].data]
  {
  }

  lemma CompactedNew(was: seq<Grid>, now: seq<Grid>, tmp: int, dr: int, next: seq<Grid>)
    requires Compacted(was, now, tmp, dr) && tmp < |was| && 0 < tmp && was[tmp].data != now[dr].data
    requires dr + 1 < |now| && next == now[dr + 1 := Grid(now[dr + 1].level, was[tmp].data)]
    ensures Compacted(was, next, tmp + 1, dr + 1)
  {
    hide DataOf, Dedup;
    CompactedNewData(was, now, tmp, dr);
    DataOfNext(now, next, dr + 1);
  }

  lemma CompactedNewData(was: seq<Grid>, now: seq<Grid>, tmp: int, dr: int)
    requires Compacted(was, now, tmp, dr) && tmp < |was| && 0 < tmp && was[tmp].data != now[dr].data
    ensures Dedup(DataOf(was)[..tmp + 1]) == DataOf(now[..dr + 1]) + [was[tmp].data]
  {
    hide Dedup;
    UniqueLast(was, now, tmp, dr);
    DedupNext(DataOf(was), tmp);
  }

  lemma UniqueStep(was: seq<Grid>, now: seq<Grid>, tmp: int, dr: int)
    requires UniqueSoFar(was, now, tmp, dr) && tmp < |was|
    ensures now[tmp].data == now[dr].data ==> UniqueSoFar(was, now, tmp + 1, dr)
    ensures now[tmp].data != now[dr].data ==> dr + 1 < |now|
    ensures now[tmp].data != now[dr].data ==>
              UniqueSoFar(was, now[dr + 1 := Grid(now[dr + 1].level, now[tmp].data)], tmp + 1, dr + 1)
  {
    hide Compacted;
    CompactedBounds(was, now, tmp, dr);
    if now[tmp].data == now[dr].data {
      CompactedRepeat(was, now, tmp, dr);
    } else {
      CompactedNew(was, now, tmp, dr, now[dr + 1 := Grid(now[dr + 1].level, now[tmp].data)]);
    }
  }

  lemma CompactedBounds(was: seq<Grid>, now: seq<Grid>, tmp: int, dr: int)
    requires Compacted(was, now, tmp, dr)
    ensures 0 <= dr <= tmp <= |was| == |now| && dr < |was| && (0 < tmp ==> dr < tmp) && (tmp == 0 ==> dr == 0)
  {
  }

  lemma UniqueBounds(was: seq<Grid>, now: seq<Grid>, tmp: int, dr: int)
    requires UniqueSoFar(was, now, tmp, dr)
    ensures 0 <= dr <= tmp <= |was| == |now| && dr < |was| && (0 < tmp ==> dr < tmp) && (tmp == 0 ==> dr == 0)
  {
  }

  lemma UniqueStarts(was: seq<Grid>)
    requires was != []
    ensures UniqueSoFar(was, was, 0, 0)
  {
  }

  lemma UniqueEnds(was: seq<Grid>, now: seq<Grid>, dr: int)
    requires UniqueSoFar(was, now, |was|, dr) && was != []
    ensures 0 <= dr < |now| && now[..dr + 1] == UniqueCells(was) && SameLevels(was, now)
  {
    hide Dedup;
    assert DataOf(was)[..|was|] == DataOf(was);
    var d := DataOf(now[..dr + 1]);
    forall k | 0 <= k <= dr ensures now[k] == UniqueCells(was)[k] {
      assert d[k] == now[k].data;
    }
  }

  /** Only the codes move: slot k keeps its level. */
  method Unique(r: array<Grid>) returns (numNew: nat)
    modifies r
    ensures numNew <= r.Length && r[..numNew] == UniqueCells(old(r[..]))
    ensures SameLevels(old(r[..]), r[..])
  {
    hide UniqueCells, UniqueSoFar, SameLevels;
    var num := r.Length;
    ghost var was := r[..];
    if num < 2 {
      UniqueShort(was);
      assert r[..num] == was;
      return num;
    }
    var tmp, dr := 0, 0;
    UniqueStarts(was);
    while tmp < num
      invariant tmp <= num && UniqueSoFar(was, r[..], tmp, dr)
    {
      UniqueBounds(was, r[..], tmp, dr);
      UniqueStep(was, r[..], tmp, dr);
      if r[tmp].data != r[dr].data {
        dr := dr + 1;
        r[dr] := Grid(r[dr].level, r[tmp].data);
        tmp := tmp + 1;
      } else {
        tmp := tmp + 1;
      }
    }
    UniqueEnds(was, r[..], dr);
    numNew := dr + 1;
    assert r[..][..numNew] == r[..numNew];
  }

  lemma UniqueShort(s: seq<Grid>)
    requires |s| < 2
    ensures s == UniqueCells(s) && SameLevels(s, s)
  {
  }

  lemma FirstAlone(s: seq<nat>)
    requires s != []
    ensures Dedup(s[..1]) == [s[0]]
  {
  }

  // ----- which cells are left -----

  /** The first cell of every code. */
  function FirstCells(s: seq<Grid>): (r: seq<Grid>)
    ensures |r| <= |s|
  {
    if |s| <= 1 then s
    else
      var n := |s| - 1;
      if s[n].data == s[n - 1].data then FirstCells(s[..n]) else FirstCells(s[..n]) + [s[n]]
  }

  /** Cell t starts a new code. */
  ghost predicate Starts(s: seq<Grid>, t: int)
    requires 0 <= t < |s|
  {
    t == 0 || s[t].data != s[t - 1].data
  }

  /** The number of codes before cell t. */
  function Rank(s: seq<Grid>, t: int): nat
    requires 0 <= t <= |s|
  {
    |Dedup(DataOf(s[..t]))|
  }

  lemma DataOfLast(s: seq<Grid>)
    requires s != []
    ensures DataOf(s)[..|s| - 1] == DataOf(s[..|s| - 1]) && DataOf(s)[|s| - 1] == s[|s| - 1].data
  {
  }

  lemma {:induction false} FirstCellsData(s: seq<Grid>)
    ensures DataOf(FirstCells(s)) == Dedup(DataOf(s))
  {
    if 1 < |s| {
      var n := |s| - 1;
      FirstCellsData(s[..n]);
      DataOfLast(s);
      DataOfLast(s[..n]);
      assert s[..n][n - 1] == s[n - 1];
    }
  }

  lemma RankIsCount(s: seq<Grid>, t: int)
    requires 0 <= t <= |s|
    ensures Rank(s, t) == |FirstCells(s[..t])| <= t
  {
    FirstCellsData(s[..t]);
  }

  /** A cell that starts a code is the first cell at its rank. */
  lemma {:induction false} FirstCellAt(s: seq<Grid>, t: int)
    requires 0 <= t < |s| && Starts(s, t)
    ensures Rank(s, t) < |FirstCells(s)| && FirstCells(s)[Rank(s, t)] == s[t]
    decreases |s|
  {
    hide Dedup, DataOf, Rank;
    RankIsCount(s, t);
    if 1 < |s| {
      var n := |s| - 1;
      if t < n {
        FirstCellAt(s[..n], t);
        assert s[..n][..t] == s[..t];
        RankIsCount(s[..n], t);
      }
    } else {
      assert s[..t] == [];
    }
  }

  lemma {:induction false} StartOfRank(s: seq<Grid>, k: int) returns (t: int)
    requires 0 <= k < |FirstCells(s)|
    ensures 0 <= t < |s| && Starts(s, t) && Rank(s, t) == k
    decreases |s|
  {
    hide Dedup, DataOf, Rank;
    if |s| <= 1 {
      t := 0;
      RankIsCount(s, 0);
      assert s[..0] == [];
    } else {
      var n := |s| - 1;
      if k < |FirstCells(s[..n])| {
        t := StartOfRank(s[..n], k);
        assert s[..n][..t] == s[..t];
        RankIsCount(s[..n], t);
        RankIsCount(s, t);
      } else {
        t := n;
        RankIsCount(s, n);
      }
    }
  }

  /** Every code starts with a cell of the level that stands in its new slot. */
  ghost predicate LevelsFit(s: seq<Grid>) {
    forall t :: 0 <= t < |s| && Starts(s, t) && Rank(s, t) < |s| ==> s[Rank(s, t)].level == s[t].level
  }

  /** The cells left are the first cells of the codes exactly when every cell that starts a new code has
      the level of the slot whose number is the count of codes before it. */
  lemma UniqueIsFirstCells(s: seq<Grid>)
    ensures UniqueCells(s) == FirstCells(s) <==> LevelsFit(s)
  {
    hide Dedup, DataOf, Rank, Starts;
    var u, f := UniqueCells(s), FirstCells(s);
    FirstCellsData(s);
    SlotsOf(s);
    if u == f {
      forall t | 0 <= t < |s| && Starts(s, t) && Rank(s, t) < |s| ensures s[Rank(s, t)].level == s[t].level {
        FirstCellAt(s, t);
        assert u[Rank(s, t)].level == s[Rank(s, t)].level;
      }
    }
    if LevelsFit(s) {
      forall k | 0 <= k < |f| ensures u[k] == f[k] {
        var t := StartOfRank(s, k);
        FirstCellAt(s, t);
      }
    }
  }

  lemma SlotsOf(s: seq<Grid>)
    ensures |UniqueCells(s)| == |FirstCells(s)| <= |s|
    ensures forall k :: 0 <= k < |FirstCells(s)| ==> UniqueCells(s)[k] == Grid(s[k].level, FirstCells(s)[k].data)
  {
    hide Dedup;
    FirstCellsData(s);
    var d := DataOf(FirstCells(s));
    assert forall k :: 0 <= k < |FirstCells(s)| ==> d[k] == FirstCells(s)[k].data;
  }

  /** On arrays of one level the cells that remain are exactly the given ones. */
  lemma UniqueOfOneLevel(s: seq<Grid>, level: nat)
    requires Sorted(s) && forall i :: 0 <= i < |s| ==> s[i].level == level
    ensures forall c :: c in UniqueCells(s) <==> c in s
  {
    var data := DataOf(s);
    DedupIsSet(data);
    forall c ensures c in UniqueCells(s) <==> c in s {
      var d := Dedup(data);
      if c in UniqueCells(s) {
        var k :| 0 <= k < |d| && UniqueCells(s)[k] == c;
        assert d[k] in data;
        var i :| 0 <= i < |s| && data[i] == d[k];
        assert s[i] == c;
      }
      if c in s {
        var i :| 0 <= i < |s| && s[i] == c;
        assert data[i] in d;
        var k :| 0 <= k < |d| && d[k] == data[i];
        assert UniqueCells(s)[k] == c;
      }
    }
  }

  // ----- gridarray_contains: sorted, made unique, scanned -----

  lemma {:induction false} FirstCellsFrom(s: seq<Grid>)
    ensures forall c :: c in FirstCells(s) ==> c in s
  {
    if 1 < |s| { FirstCellsFrom(s[..|s| - 1]); }
  }

  lemma FirstCellsSorted(s: seq<Grid>)
    requires Cells(s) && Sorted(s)
    ensures Cells(FirstCells(s)) && Sorted(FirstCells(s))
  {
    hide Dedup, FirstCells, IsCell;
    FirstCellsFrom(s);
    FirstCellsData(s);
    DedupIsSet(DataOf(s));
    var f := FirstCells(s);
    assert forall k :: 0 <= k < |f| ==> f[k] in s;
    forall i, j | 0 <= i <= j < |f| ensures f[i].data <= f[j].data {
      assert DataOf(f)[i] == f[i].data && DataOf(f)[j] == f[j].data;
    }
  }

  ghost predicate OneLevel(s: seq<Grid>, level: nat) {
    forall i :: 0 <= i < |s| ==> s[i].level == level
  }

  /** With one level throughout, the first cells are all cells, and none is nested in another one. */
  lemma OneLevelFits(s: seq<Grid>, level: nat)
    requires Cells(s) && Sorted(s) && OneLevel(s, level)
    ensures LevelsFit(s) && forall c :: c in FirstCells(s) <==> c in s
    ensures Cells(FirstCells(s)) && Antichain(FirstCells(s))
  {
    hide Dedup, FirstCells, UniqueCells, IsCell;
    UniqueIsFirstCells(s);
    UniqueOfOneLevel(s, level);
    FirstCellsSorted(s);
    FirstCellsData(s);
    DedupIsSet(DataOf(s));
    var f := FirstCells(s);
    FirstCellsFrom(s);
    forall x, y | 0 <= x < |f| && 0 <= y < |f| && x != y ensures !Contains(f[x], f[y]) {
      assert f[x] in s && f[y] in s;
      assert DataOf(f)[x] == f[x].data && DataOf(f)[y] == f[y].data;
      assert f[x].data != f[y].data;
      CompareMasked(f[x], f[y]);
      CompareMasked(f[y], f[x]);
    }
  }

  lemma SameCellsSameAnswer(a: seq<Grid>, b: seq<Grid>, a': seq<Grid>, b': seq<Grid>)
    requires Cells(a) && Cells(b) && Cells(a') && Cells(b')
    requires (forall c :: c in a <==> c in a') && (forall c :: c in b <==> c in b')
    ensures AllContained(a, b) <==> AllContained(a', b')
  {
    SameCellsOneWay(a, b, a', b');
    SameCellsOneWay(a', b', a, b);
  }

  lemma SameCellsOneWay(a: seq<Grid>, b: seq<Grid>, a': seq<Grid>, b': seq<Grid>)
    requires Cells(a) && Cells(b) && Cells(a') && Cells(b')
    requires (forall c :: c in a ==> c in a') && (forall c :: c in b' ==> c in b)
    ensures AllContained(a, b) ==> AllContained(a', b')
  {
    hide IsCell, Contains;
    if AllContained(a, b) {
      forall y | 0 <= y < |b'| ensures Contained(a', b'[y]) {
        assert b'[y] in b;
        var k :| 0 <= k < |b| && b[k] == b'[y];
        assert Contained(a, b[k]);
        var x :| 0 <= x < |a| && Contains(a[x], b[k]);
        assert a[x] in a';
        var z :| 0 <= z < |a'| && a'[z] == a[x];
      }
    }
  }

  lemma UniqueLevels(s: seq<Grid>)
    requires Levels(s)
    ensures Levels(UniqueCells(s)) && (Sorted(s) ==> Sorted(UniqueCells(s)))
  {
    hide Dedup;
    SlotsOf(s);
    if Sorted(s) { DedupIsSet(DataOf(s)); }
  }

  /** gridarray_contains on sorted arrays: an empty array gives false; otherwise the scan answers for what
      the unique step leaves. Where the levels of the codes are kept these are the first cells, and with
      one level throughout each array the answer is right for all cells. */
  method GridarrayContains(a: array<Grid>, b: array<Grid>) returns (r: bool)
    requires a != b && Cells(a[..]) && Cells(b[..]) && Sorted(a[..]) && Sorted(b[..])
    modifies a, b
    ensures a.Length == 0 || b.Length == 0 ==> !r
    ensures Levels(UniqueCells(old(a[..]))) && Levels(UniqueCells(old(b[..])))
    ensures r ==> Assignable(UniqueCells(old(a[..])), UniqueCells(old(b[..])))
    ensures 0 < a.Length && 0 < b.Length && Orderly(UniqueCells(old(a[..])), UniqueCells(old(b[..]))) ==>
              (r <==> Assignable(UniqueCells(old(a[..])), UniqueCells(old(b[..]))))
    ensures 0 < a.Length && 0 < b.Length && LevelsFit(old(a[..])) && LevelsFit(old(b[..])) ==>
              && Levels(FirstCells(old(a[..]))) && Levels(FirstCells(old(b[..])))
              && (r <==> Assignable(FirstCells(old(a[..])), FirstCells(old(b[..]))))
    ensures forall k, l :: 0 < a.Length && 0 < b.Length && OneLevel(old(a[..]), k) && OneLevel(old(b[..]), l) ==>
              (r <==> AllContained(old(a[..]), old(b[..])))
  {
    hide IsCell, Cells, Sorted, LevelsFit, UniqueCells, FirstCells, AllContained;
    hide Antichain, OneLevel, SameLevels, NoRepeats, Assignable, Orderly, Levels;
    ghost var p, q := a[..], b[..];
    CellsHaveLevels(p);
    CellsHaveLevels(q);
    UniqueLevels(p);
    UniqueLevels(q);
    if a.Length == 0 || b.Length == 0 {
      return false;
    }
    var na := Unique(a);
    var nb := Unique(b);
    r := GridContains(a[..na], b[..nb]);
    if LevelsFit(p) && LevelsFit(q) {
      UniqueIsFirstCells(p);
      UniqueIsFirstCells(q);
      FirstCellsSorted(p);
      FirstCellsSorted(q);
    }
    forall k, l | OneLevel(p, k) && OneLevel(q, l) ensures r <==> AllContained(p, q) {
      OneLevelFits(p, k);
      OneLevelFits(q, l);
      UniqueIsFirstCells(p);
      UniqueIsFirstCells(q);
      FirstCellsSorted(p);
      FirstCellsSorted(q);
      SameCellsSameAnswer(FirstCells(p), FirstCells(q), p, q);
    }
  }

  lemma CellsHaveLevels(s: seq<Grid>)
    requires Cells(s)
    ensures Levels(s)
  {
  }

  /** What the unique step makes of a repeated code and another one. */
  lemma UniqueOfThree(c: Grid, d: Grid, e: Grid)
    requires c.data == d.data != e.data
    ensures UniqueCells([c, d, e]) == [c, Grid(d.level, e.data)]
  {
    hide Dedup;
    var s := [c, d, e];
    var t: seq<nat> := [c.data, c.data, e.data];
    assert DataOf(s) == t;
    DedupNext(t, 0);
    DedupNext(t, 1);
    DedupNext(t, 2);
    assert t[..0] == [] && t[..3] == t;
    assert Dedup(t[..0]) == [] by { DedupNothing(); }
  }

  lemma UniqueOfOne(c: Grid)
    ensures UniqueCells([c]) == [c]
  {
    assert DataOf([c]) == [c.data];
  }

  /** gridarray_contains for a repeated code, another one, and one cell to look for. */
  method SearchInThree(c: Grid, d: Grid, e: Grid, x: Grid) returns (r: bool)
    requires Cells([c, d, e]) && Cells([x]) && Sorted([c, d, e]) && c.data == d.data != e.data
    ensures Levels([c, Grid(d.level, e.data)]) && Levels([x])
    ensures r ==> Assignable([c, Grid(d.level, e.data)], [x])
    ensures Orderly([c, Grid(d.level, e.data)], [x]) ==> (r <==> Assignable([c, Grid(d.level, e.data)], [x]))
  {
    hide Orderly, Assignable, UniqueCells, LevelsFit, OneLevel, FirstCells, AllContained, IsCell;
    var a, b := new Grid[3], new Grid[1];
    a[0], a[1], a[2], b[0] := c, d, e, x;
    assert a[..] == [c, d, e] && b[..] == [x];
    UniqueOfThree(c, d, e);
    UniqueOfOne(x);
    r := GridarrayContains(a, b);
  }

  /** On mixed levels gridarray_contains can claim a cell that no cell of a contains. */
  method MixedLevelsClaim() returns (r: bool)
    ensures var a, d := [Grid(31, 0), Grid(31, 0), Grid(32, 5)], Grid(32, 6);
            Cells(a) && Sorted(a) && IsCell(d) && !Contained(a, d) && r
  {
    hide Orderly, Assignable, Width;
    FinestWidths();
    ClaimedCell();
    r := SearchInThree(Grid(31, 0), Grid(31, 0), Grid(32, 5), Grid(32, 6));
  }

  /** It can also miss a cell that a cell of a contains. */
  method MixedLevelsMiss() returns (r: bool)
    ensures var a, d := [Grid(32, 0), Grid(32, 0), Grid(31, 4)], Grid(32, 5);
            Cells(a) && Sorted(a) && IsCell(d) && Contained(a, d) && !r
  {
    hide Orderly, Assignable, Width;
    FinestWidths();
    MissedCell();
    assert Contains([Grid(32, 0), Grid(32, 0), Grid(31, 4)][2], Grid(32, 5));
    r := SearchInThree(Grid(32, 0), Grid(32, 0), Grid(31, 4), Grid(32, 5));
  }

  lemma ClaimedCell()
    ensures var a, b := [Grid(31, 0), Grid(31, 5)], [Grid(32, 6)];
            Levels(a) && Levels(b) && Orderly(a, b) && Assignable(a, b)
  {
    hide Width;
    FinestWidths();
    var a, b, f := [Grid(31, 0), Grid(31, 5)], [Grid(32, 6)], [1];
    assert Matches(a[f[0]], b[0]);
    assert Assigns(a, b, f);
  }

  lemma MissedCell()
    ensures var a, b := [Grid(32, 0), Grid(32, 4)], [Grid(32, 5)];
            Levels(a) && Levels(b) && !Assignable(a, b)
  {
    hide Matches;
    var a, b := [Grid(32, 0), Grid(32, 4)], [Grid(32, 5)];
    forall f: seq<nat> | |f| == |b| ensures !Assigns(a, b, f) {
      if f[0] < |a| {
        OtherCode(a[f[0]], b[0]);
      }
    }
  }

  lemma OtherCode(c: Grid, d: Grid)
    requires c.level == d.level <= 32 && c.data != d.data
    ensures !Matches(c, d)
  {
  }

  /** On mixed levels a code can end up with the level of another cell. */
  lemma UniqueMixesLevels()
    ensures var s := [Grid(31, 0), Grid(31, 0), Grid(32, 5)];
            Sorted(s) && Cells(s) && UniqueCells(s) == [Grid(31, 0), Grid(31, 5)] && !IsCell(Grid(31, 5))
  {
    UniqueOfThree(Grid(31, 0), Grid(31, 0), Grid(32, 5));
    FinestWidths();
  }

  lemma DedupNothing()
    ensures Dedup([]) == []
  {
  }

  lemma FinestWidths()
    ensures Width(32) == 1 && Width(31) == 4
  {
  }
}
