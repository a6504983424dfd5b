/** The in-place code of liblwgeom/effectivearea.c: ptarray_calc_areas and tune_areas. */
module EffectiveAreaCode {
  import opened FloatRange
  import opened AreaHeap
  import opened EffectiveArea
  import opened EffectiveAreaRun

  // ----- the initial order: qsort with cmpfunc -----

  /** cmpfunc: by area, equal areas by position in the point array. */
  function Compare(areas: seq<real>, a: int, b: int): int
    requires 0 <= a < |areas| && 0 <= b < |areas|
  {
    if areas[a] == areas[b] then a - b else if areas[a] > areas[b] then 1 else if areas[a] < areas[b] then -1 else 0
  }

  ghost predicate Below(keys: seq<int>, n: int) {
    forall j :: 0 <= j < |keys| ==> 0 <= keys[j] < n
  }

  ghost predicate SortedBy(areas: seq<real>, keys: seq<int>)
    requires Below(keys, |areas|)
  {
    forall i, j :: 0 <= i < j < |keys| ==> Compare(areas, keys[i], keys[j]) < 0
  }

  /** Inserting k into a sorted list of other points. */
  function Insert(areas: seq<real>, k: int, keys: seq<int>): (r: seq<int>)
    requires 0 <= k < |areas| && Below(keys, |areas|) && SortedBy(areas, keys) && k !in keys
    ensures Below(r, |areas|) && SortedBy(areas, r) && |r| == |keys| + 1
    ensures forall x :: x in r <==> x == k || x in keys
  {
    if keys == [] || Compare(areas, k, keys[0]) < 0 then
      assert forall x :: x in keys ==> exists j :: 0 <= j < |keys| && keys[j] == x;
      [k] + keys
    else
      var rest := Insert(areas, k, keys[1..]);
      assert forall x :: x in rest ==> Compare(areas, keys[0], x) < 0;
      assert forall x :: x in keys <==> x == keys[0] || x in keys[1..];
      [keys[0]] + rest
  }

  /** The points 0, ..., m-1 in the order that qsort gives them. */
  function SortedKeys(areas: seq<real>, m: nat): (r: seq<int>)
    requires m <= |areas|
    ensures Below(r, |areas|) && SortedBy(areas, r) && |r| == m
    ensures forall x :: x in r <==> 0 <= x < m
  {
    if m == 0 then [] else Insert(areas, m - 1, SortedKeys(areas, m - 1))
  }

  lemma SortedKeysDiffer(areas: seq<real>, keys: seq<int>, i: int, j: int)
    requires Below(keys, |areas|) && SortedBy(areas, keys) && 0 <= i < |keys| && 0 <= j < |keys|
    ensures keys[i] == keys[j] ==> i == j
  {
  }

  lemma TailElements(areas: seq<real>, keys: seq<int>, x: int)
    requires keys != [] && Below(keys, |areas|) && SortedBy(areas, keys)
    ensures x in keys[1..] <==> x in keys && x != keys[0]
  {
    if x in keys[1..] {
      var i :| 0 <= i < |keys[1..]| && keys[1..][i] == x;
      SortedKeysDiffer(areas, keys, 0, i + 1);
    }
  }

  lemma LeastFirst(areas: seq<real>, keys: seq<int>, x: int)
    requires Below(keys, |areas|) && SortedBy(areas, keys) && x in keys
    ensures Compare(areas, keys[0], x) <= 0
  {
    var i :| 0 <= i < |keys| && keys[i] == x;
  }

  lemma SharedElement(a: seq<int>, b: seq<int>)
    requires a != [] && forall x :: x in a ==> x in b
    ensures b != []
  {
    var x := a[0];
    assert x in a;
    assert x in b;
  }

  /** cmpfunc puts the smaller area first, and of two equal ones that of the earlier point. */
  lemma CompareOrders(areas: seq<real>, a: int, b: int)
    requires 0 <= a < |areas| && 0 <= b < |areas|
    ensures Compare(areas, a, b) < 0 <==> areas[a] < areas[b] || (areas[a] == areas[b] && a < b)
    ensures Compare(areas, a, b) == 0 <==> a == b
  {
  }

  /** In the sorted list areas rise, and equal areas stand in the order of their points. */
  lemma SortedByArea(areas: seq<real>, m: nat, i: int, j: int)
    requires m <= |areas| && 0 <= i < j < m
    ensures var keys := SortedKeys(areas, m);
            && 0 <= keys[i] < m && 0 <= keys[j] < m
            && (areas[keys[i]] < areas[keys[j]] || (areas[keys[i]] == areas[keys[j]] && keys[i] < keys[j]))
  {
    hide Compare;
    var keys := SortedKeys(areas, m);
    assert keys[i] in keys && keys[j] in keys;
    CompareOrders(areas, keys[i], keys[j]);
  }

  /** cmpfunc is a total order, so whatever sorting method qsort uses, this is its result. */
  lemma {:induction false} SortIsUnique(areas: seq<real>, a: seq<int>, b: seq<int>)
    requires Below(a, |areas|) && Below(b, |areas|) && SortedBy(areas, a) && SortedBy(areas, b)
    requires forall x :: x in a <==> x in b
    ensures a == b
  {
    if a == [] || b == [] {
      if a != [] { SharedElement(a, b); }
      if b != [] { SharedElement(b, a); }
    } else {
      assert b[0] in a;
      assert a[0] in b;
      LeastFirst(areas, a, b[0]);
      LeastFirst(areas, b, a[0]);
      forall x ensures x in a[1..] <==> x in b[1..] {
        TailElements(areas, a, x);
        TailElements(areas, b, x);
      }
      SortIsUnique(areas, a[1..], b[1..]);
    }
  }

  // ----- the state before the first turn -----

  function InitialArea(tri: AreaFn, n: int, k: int): real {
    if 0 < k < n - 1 then tri(k - 1, k, k + 1) else FLT_MAX
  }

  function InitialAreas(tri: AreaFn, n: nat): (r: seq<real>)
    ensures |r| == n
  {
    seq(n, k => InitialArea(tri, n, k))
  }

  function Position(keys: seq<int>, k: int): (p: int)
    requires k in keys
    ensures 0 <= p < |keys| && keys[p] == k
  {
    if keys[0] == k then 0 else 1 + Position(keys[1..], k)
  }

  function InitialNode(tri: AreaFn, n: int, k: int, treeIndex: int): AreaNode {
    AreaNode(InitialArea(tri, n, k), treeIndex, if k == 0 then 0 else k - 1, if k == n - 1 then n - 1 else k + 1)
  }

  ghost function Start(tri: AreaFn, n: nat): State {
    var keys := SortedKeys(InitialAreas(tri, n), n);
    State(Heap(seq(n, k requires 0 <= k < n => InitialNode(tri, n, k, Position(keys, k))), keys, n),
          seq(n, k => FLT_MAX), 0, 0.0)
  }

  lemma PositionInSorted(areas: seq<real>, keys: seq<int>, j: int)
    requires Below(keys, |areas|) && SortedBy(areas, keys) && 0 <= j < |keys|
    ensures Position(keys, keys[j]) == j
  {
    SortedKeysDiffer(areas, keys, j, Position(keys, keys[j]));
  }

  lemma StartIsHeap(tri: AreaFn, n: nat)
    requires 3 <= n
    ensures var h := Start(tri, n).heap;
            WellFormed(h) && BackIndexed(h) && Ordered(h) && forall k :: InHeap(h, k) <==> 0 <= k < n
  {
    var h := Start(tri, n).heap;
    var areas := InitialAreas(tri, n);
    forall j | 0 <= j < n ensures h.nodes[h.keys[j]].treeIndex == j {
      PositionInSorted(areas, h.keys, j);
    }
    forall j | 0 <= j < n ensures OrderedAt(h, j) {
      if 0 < j { assert Compare(areas, h.keys[Parent(j)], h.keys[j]) < 0; }
    }
  }

  lemma StartIsLinked(tri: AreaFn, n: nat)
    requires 3 <= n && WellFormed(Start(tri, n).heap)
    requires forall k :: InHeap(Start(tri, n).heap, k) <==> 0 <= k < n
    ensures Linked(Start(tri, n).heap)
  {
    hide Start, InHeap;
    var h := Start(tri, n).heap;
    StartNeighbours(tri, n);
    forall k | InHeap(h, k) && k < n - 1 ensures LinkedAfter(h, k) {
    }
    forall k | InHeap(h, k) && 0 < k ensures LinkedBefore(h, k) {
    }
  }

  lemma StartNeighbours(tri: AreaFn, n: nat)
    requires 3 <= n
    ensures var h := Start(tri, n).heap;
            && |h.nodes| == n
            && forall k :: 0 <= k < n ==>
                 && h.nodes[k].prev == (if k == 0 then 0 else k - 1)
                 && h.nodes[k].next == (if k == n - 1 then n - 1 else k + 1)
  {
    StartHeapIs(tri, n);
    hide Start, Position, SortedKeys, InitialArea, InitialAreas;
  }

  lemma StartAreas(tri: AreaFn, n: nat)
    requires 3 <= n && WellFormed(Start(tri, n).heap)
    ensures AreasAreCurrent(tri, Start(tri, n).heap, 0.0) && EndsAreMaximal(Start(tri, n).heap)
  {
    var h := Start(tri, n).heap;
    forall k | Interior(h, k) ensures AreaIsCurrent(tri, h, 0.0, k) {
    }
  }

  /** The invariant holds before the first turn. */
  lemma StartSatisfiesInv(tri: AreaFn, n: nat, avoid: int)
    requires 3 <= n && 0 <= avoid <= 4
    ensures Inv(tri, avoid, Start(tri, n))
  {
    StartIsHeap(tri, n);
    StartIsLinked(tri, n);
    StartAreas(tri, n);
    StartBasics(tri, n);
    hide Start, Linked, Ordered, BackIndexed, AreasAreCurrent;
  }

  lemma StartHeapIs(tri: AreaFn, n: nat)
    requires 3 <= n
    ensures var h := Start(tri, n).heap; var keys := SortedKeys(InitialAreas(tri, n), n);
            h.keys == keys && h.used == n == |h.nodes| &&
            forall k :: 0 <= k < n ==> h.nodes[k] == InitialNode(tri, n, k, Position(keys, k))
  {
  }

  /** The first i keys have been given their back-indices. */
  ghost predicate Indexed(tri: AreaFn, nodes: seq<AreaNode>, keys: seq<int>, i: int) {
    forall k :: 0 <= k < |nodes| ==>
      && k in keys
      && nodes[k] == InitialNode(tri, |nodes|, k, if Position(keys, k) < i then Position(keys, k) else 0)
  }

  lemma NoneIndexed(tri: AreaFn, nodes: seq<AreaNode>, keys: seq<int>)
    requires forall k :: 0 <= k < |nodes| ==> k in keys && nodes[k] == InitialNode(tri, |nodes|, k, 0)
    ensures Indexed(tri, nodes, keys, 0)
  {
    hide InitialNode;
  }

  lemma NextIndexed(tri: AreaFn, was: seq<AreaNode>, now: seq<AreaNode>, keys: seq<int>, i: int)
    requires 0 <= i < |keys| == |was| && 0 <= keys[i] < |was| && Indexed(tri, was, keys, i)
    requires Position(keys, keys[i]) == i && now == was[keys[i] := was[keys[i]].(treeIndex := i)]
    ensures Indexed(tri, now, keys, i + 1)
  {
    hide Position, InitialArea;
    forall k | 0 <= k < |now|
      ensures k in keys
      ensures now[k] == InitialNode(tri, |now|, k, if Position(keys, k) < i + 1 then Position(keys, k) else 0)
    {
      assert k in keys;
      if k != keys[i] { assert keys[Position(keys, k)] == k; }
    }
  }

  lemma AllIndexed(tri: AreaFn, nodes: seq<AreaNode>, keys: seq<int>)
    requires Indexed(tri, nodes, keys, |nodes|) && |keys| == |nodes|
    ensures forall k :: 0 <= k < |nodes| ==> k in keys && nodes[k] == InitialNode(tri, |nodes|, k, Position(keys, k))
  {
    hide InitialNode, Position;
  }

  lemma StartBasics(tri: AreaFn, n: nat)
    requires 3 <= n
    ensures var s := Start(tri, n);
            s.heap.used == n == |s.heap.nodes| && s.turn == 0 && s.last == 0.0 && s.res == seq(n, k => FLT_MAX)
  {
  }

  /** The emitted areas that a run over the n points of tri leaves behind. */
  ghost function FinalAreas(tri: AreaFn, n: nat, avoid: int, setArea: bool, trshld: real): (r: seq<real>)
    requires 3 <= n && 0 <= avoid <= 4
    ensures |r| == n
  {
    StartSatisfiesInv(tri, n, avoid);
    StartBasics(tri, n);
    FinalEntry(tri, avoid, setArea, trshld, Start(tri, n), 0);
    Tune(tri, avoid, setArea, trshld, Start(tri, n)).res
  }

  // ----- which point goes first -----

  /** The first interior point among those of least area. */
  ghost predicate FirstLeast(tri: AreaFn, n: nat, c: int) {
    && 0 < c < n - 1
    && forall k :: 0 < k < n - 1 ==>
         InitialArea(tri, n, c) <= InitialArea(tri, n, k)
         && (InitialArea(tri, n, c) == InitialArea(tri, n, k) ==> c <= k)
  }

  lemma FirstKey(tri: AreaFn, n: nat)
    requires 3 <= n
    ensures var keys := SortedKeys(InitialAreas(tri, n), n); FirstLeast(tri, n, keys[0])
  {
    var areas := InitialAreas(tri, n);
    var keys := SortedKeys(areas, n);
    assert keys[0] in keys;
    hide SortedKeys;
    forall k | 0 <= k < n && k != keys[0]
      ensures areas[keys[0]] < areas[k] || (areas[keys[0]] == areas[k] && keys[0] < k)
    {
      KeyOfPoint(areas, n, k);
    }
    assert areas[1] < FLT_MAX && areas[0] == FLT_MAX && areas[n - 1] == FLT_MAX;
    forall k | 0 < k < n - 1 ensures areas[k] == InitialArea(tri, n, k) {
    }
  }

  lemma KeyOfPoint(areas: seq<real>, n: nat, k: int)
    requires n == |areas| && 0 <= k < n && k != SortedKeys(areas, n)[0]
    ensures var first := SortedKeys(areas, n)[0];
            0 <= first < n && (areas[first] < areas[k] || (areas[first] == areas[k] && first < k))
  {
    var keys := SortedKeys(areas, n);
    assert k in keys;
    var j :| 0 <= j < n && keys[j] == k;
    SortedByArea(areas, n, 0, j);
  }

  /** A run takes out the first interior point of least area first. */
  lemma FirstEmission(tri: AreaFn, n: nat, avoid: int)
    requires 3 <= n && 0 <= avoid <= 4
    ensures Inv(tri, avoid, Start(tri, n))
    ensures var ems := Emissions(tri, avoid, Start(tri, n));
            && ems != [] && FirstLeast(tri, n, ems[0].point)
            && ems[0].area == if 0 < n - avoid then InitialArea(tri, n, ems[0].point) else FLT_MAX
  {
    StartSatisfiesInv(tri, n, avoid);
    StartBasics(tri, n);
    StartHeapIs(tri, n);
    FirstKey(tri, n);
    var s := Start(tri, n);
    hide Start, Step, Emissions, Tune, Inv, SortedKeys, FirstLeast;
    var c, t := LiveTurn(tri, avoid, s);
  }

  lemma FirstTurnOfFour(tri: AreaFn) returns (t: State)
    requires tri(0, 1, 2) == 2.0 && tri(1, 2, 3) == 2.0
    ensures Inv(tri, 2, Start(tri, 4)) && Inv(tri, 2, t)
    ensures WellFormed(t.heap) && |t.heap.nodes| == 4 && t.heap.used == 3 && t.turn == 1 && t.last == 2.0
    ensures LiveSet(t.heap) == {0, 2, 3}
    ensures Emissions(tri, 2, Start(tri, 4)) == [Emission(1, 2.0)] + Emissions(tri, 2, t)
  {
    hide Inv, Start, Step, Emissions, LiveSet, FirstLeast, InitialArea;
    FirstEmission(tri, 4, 2);
    FirstOfFour(tri, Emissions(tri, 2, Start(tri, 4))[0].point);
    StartBasics(tri, 4);
    StartLive(tri);
    var c;
    c, t := LiveTurn(tri, 2, Start(tri, 4));
    assert {0, 1, 2, 3} - {1} == {0, 2, 3};
    InvShape(tri, 2, t);
  }

  lemma InvShape(tri: AreaFn, avoid: int, s: State)
    requires Inv(tri, avoid, s)
    ensures WellFormed(s.heap) && s.heap.used == |s.heap.nodes| - s.turn
  {
    hide Linked, Ordered, BackIndexed, AreasAreCurrent, Emitted, EndsAreMaximal;
  }

  lemma SecondTurnOfFour(tri: AreaFn, t: State)
    requires tri(0, 2, 3) == 4.0 && Inv(tri, 2, t) && t.heap.used == 3
    requires WellFormed(t.heap) && |t.heap.nodes| == 4 && t.turn == 1 && t.last == 2.0 && LiveSet(t.heap) == {0, 2, 3}
    ensures Emissions(tri, 2, t) == [Emission(2, 4.0)]
  {
    FullRunIsNaive(tri, 2, t);
    hide Step, Emissions, LiveSet, NaiveRun;
    hide Linked, Ordered, BackIndexed, AreasAreCurrent, Emitted, EndsAreMaximal;
    var d, u := LiveTurn(tri, 2, t);
    NoTurnLeft(tri, 2, u);
    SecondOfFour(tri, {0, 2, 3}, Emissions(tri, 2, t));
  }

  lemma EmissionsOfFour(tri: AreaFn)
    requires tri(0, 1, 2) == 2.0 && tri(1, 2, 3) == 2.0 && tri(0, 2, 3) == 4.0
    ensures Inv(tri, 2, Start(tri, 4))
    ensures Emissions(tri, 2, Start(tri, 4)) == [Emission(1, 2.0), Emission(2, 4.0)]
  {
    hide Inv, Start, Emissions, LiveSet;
    var t := FirstTurnOfFour(tri);
    SecondTurnOfFour(tri, t);
  }

  lemma StartLive(tri: AreaFn)
    ensures WellFormed(Start(tri, 4).heap) && LiveSet(Start(tri, 4).heap) == {0, 1, 2, 3}
  {
    hide Start, InHeap, BackIndexed, Ordered;
    StartIsHeap(tri, 4);
    StartBasics(tri, 4);
  }

  lemma FirstOfFour(tri: AreaFn, c: int)
    requires tri(0, 1, 2) == 2.0 && tri(1, 2, 3) == 2.0 && FirstLeast(tri, 4, c)
    ensures c == 1 && InitialArea(tri, 4, 1) == 2.0
  {
    assert InitialArea(tri, 4, 1) == InitialArea(tri, 4, 2) == 2.0;
  }

  lemma SecondOfFour(tri: AreaFn, live: set<int>, ems: seq<Emission>)
    requires tri(0, 2, 3) == 4.0 && live == {0, 2, 3} && |ems| == 1 && NaiveRun(tri, 4, 2, live, 1, 2.0, ems)
    ensures ems == [Emission(2, 4.0)]
  {
    assert PrevLive(live, 2) == 0 && NextLive(live, 2, 4) == 3;
    assert NaiveArea(tri, live, 4, 2.0, 2) == 4.0;
  }

  lemma PlacesOfTwo(ems: seq<Emission>)
    requires |ems| == 2 && ems[0].point == 1 && ems[1].point == 2
    ensures PlaceOf(ems, 0) == PlaceOf(ems, 3) == 2 && PlaceOf(ems, 1) == 0 && PlaceOf(ems, 2) == 1
  {
  }

  /** Two equal triangles: the earlier point goes, and the later one stays. */
  lemma EarlierOfEqualGoes(tri: AreaFn)
    requires tri(0, 1, 2) == 2.0 && tri(1, 2, 3) == 2.0 && tri(0, 2, 3) == 4.0
    ensures FinalAreas(tri, 4, 2, true, 3.0) == [FLT_MAX, 2.0, 4.0, FLT_MAX]
  {
    hide Start, Emissions, Inv, Tune, TurnsMade, PlaceOf;
    EmissionsOfFour(tri);
    StartBasics(tri, 4);
    var s, ems := Start(tri, 4), [Emission(1, 2.0), Emission(2, 4.0)];
    FullRunMakesAllTurns(3.0, ems);
    PlacesOfTwo(ems);
    FinalEntry(tri, 2, true, 3.0, s, 0);
    FinalEntry(tri, 2, true, 3.0, s, 1);
    FinalEntry(tri, 2, true, 3.0, s, 2);
    FinalEntry(tri, 2, true, 3.0, s, 3);
  }

  // ----- the code -----

  /** The heaps that one turn goes through, step by step. */
  lemma TurnShape(tri: AreaFn, avoid: int, s: State)
    requires Inv(tri, avoid, s) && 3 <= s.heap.used
    ensures var c := s.heap.keys[0];
            WellFormed(s.heap) && 0 <= c < |s.heap.nodes| == |s.res| && s.heap.used <= |s.heap.keys| &&
            var h1 := Pop(s.heap);
            var before, after := h1.nodes[c].prev, h1.nodes[c].next;
            && |h1.nodes| == |s.heap.nodes| && h1.nodes[c].area == s.heap.nodes[c].area
            && 0 <= before < after < |h1.nodes| && before != c && after != c
            && 0 <= h1.nodes[before].treeIndex < |h1.keys|
            && var e := EmittedArea(s, avoid, h1.nodes[c].area);
            s.last <= e &&
            var h2 := RefreshBefore(tri, h1, before, after, e);
            && |h2.nodes| == |h1.nodes| && h2.nodes[c].next == after && h2.nodes[c].prev == before
            && 0 <= h2.nodes[after].treeIndex < |h2.keys|
            && var h3 := RefreshAfter(tri, h2, before, after, e);
            && |h3.nodes| == |h1.nodes| && h3.nodes[c].next == after && h3.nodes[c].prev == before
            && Step(tri, avoid, s) == State(Relink(h3, c, before, after), s.res[c := e], s.turn + 1, e)
  {
    hide Pop, RefreshBefore, RefreshAfter, Relink, Linked, Ordered, BackIndexed, SetAndUpdate, AreasAreCurrent;
    NeighboursAreLive(tri, avoid, s);
    StepKeepsInv(tri, avoid, s);
    var c := s.heap.keys[0];
    var h1 := Pop(s.heap);
    var e := EmittedArea(s, avoid, h1.nodes[c].area);
    RefreshBoth(tri, h1, h1.nodes[c].prev, h1.nodes[c].next, e);
  }

  lemma LoopTurn(tri: AreaFn, avoid: int, setArea: bool, trshld: real, s: State)
    requires Inv(tri, avoid, s) && 3 <= s.heap.used
    ensures var t := Step(tri, avoid, s);
            && Inv(tri, avoid, t) && |t.heap.nodes| == |s.heap.nodes| && 2 <= t.heap.used == s.heap.used - 1
            && 0 < |t.heap.nodes| && t.turn == s.turn + 1
            && (t.heap.nodes[0].next == |t.heap.nodes| - 1 <==> t.heap.used == 2)
            && Tune(tri, avoid, setArea, trshld, s)
               == if (!setArea && t.last >= trshld) || t.heap.used == 2 then t else Tune(tri, avoid, setArea, trshld, t)
  {
    hide Step, Emissions, Tune;
    var c, t := Turn(tri, avoid, s);
    OnlyEndsLeft(tri, avoid, t);
  }

  class EffectiveAreas {
    const npoints: nat
    const tri: AreaFn
    const initialAreaList: array<AreaNode>
    const resAreaList: array<real>

    ghost predicate Valid() {
      3 <= npoints && initialAreaList.Length == npoints && resAreaList.Length == npoints
    }

    constructor (npoints: nat, tri: AreaFn)
      requires 3 <= npoints
      ensures Valid() && this.npoints == npoints && this.tri == tri && fresh(initialAreaList) && fresh(resAreaList)
    {
      this.npoints := npoints;
      this.tri := tri;
      initialAreaList := new AreaNode[npoints](_ => AreaNode(0.0, 0, 0, 0));
      resAreaList := new real[npoints](_ => 0.0);
    }

    /** ptarray_calc_areas: the first areas, then the elimination run. */
    method CalcAreas(avoidCollapse: int, setArea: bool, trshld: real)
      requires Valid() && 0 <= avoidCollapse <= 4
      modifies initialAreaList, resAreaList
      ensures resAreaList[..] == FinalAreas(tri, npoints, avoidCollapse, setArea, trshld)
    {
      var last := npoints - 1;
      initialAreaList[0] := AreaNode(FLT_MAX, 0, 0, 1);
      for i := 1 to last
        invariant initialAreaList[0] == AreaNode(FLT_MAX, 0, 0, 1)
        invariant forall k :: 1 <= k < i ==> initialAreaList[k] == InitialNode(tri, npoints, k, 0)
      {
        initialAreaList[i] := AreaNode(tri(i - 1, i, i + 1), 0, i - 1, i + 1);
      }
      initialAreaList[last] := AreaNode(FLT_MAX, 0, last - 1, last);
      resAreaList[0], resAreaList[last] := FLT_MAX, FLT_MAX;
      for i := 1 to last
        invariant resAreaList[0] == FLT_MAX && resAreaList[last] == FLT_MAX
        invariant forall k :: 1 <= k < i ==> resAreaList[k] == FLT_MAX
        invariant forall k :: 0 <= k < npoints ==> initialAreaList[k] == InitialNode(tri, npoints, k, 0)
      {
        resAreaList[i] := FLT_MAX;
      }
      assert resAreaList[..] == Start(tri, npoints).res;
      TuneAreas(avoidCollapse, setArea, trshld);
    }

    /** Fills the heap with all points in sorted order. */
    method FillKeys(tree: MinHeap)
      requires Valid() && tree.keys.Length == npoints
      modifies tree, tree.keys
      ensures tree.used == npoints && tree.keys[..] == SortedKeys(InitialAreas(tri, npoints), npoints)
    {
      var sorted := SortedKeys(InitialAreas(tri, npoints), npoints);
      for i := 0 to npoints
        invariant forall j :: 0 <= j < i ==> tree.keys[j] == sorted[j]
      {
        tree.keys[i] := sorted[i];
      }
      tree.used := npoints;
    }

    /** Tells every node its slot. */
    method FillTreeIndex(tree: MinHeap)
      requires Valid() && tree.keys.Length == npoints && tree.used == npoints
      requires tree.keys[..] == SortedKeys(InitialAreas(tri, npoints), npoints)
      requires forall k :: 0 <= k < npoints ==> initialAreaList[k] == InitialNode(tri, npoints, k, 0)
      modifies initialAreaList
      ensures tree.Model(initialAreaList) == Start(tri, npoints).heap
    {
      ghost var areas := InitialAreas(tri, npoints);
      ghost var sorted := SortedKeys(areas, npoints);
      assert forall x :: x in sorted <==> 0 <= x < npoints;
      StartHeapIs(tri, npoints);
      hide SortedKeys, Position, SortedBy, InitialArea, InitialAreas, Start, Below, InitialNode, Indexed;
      NoneIndexed(tri, initialAreaList[..], sorted);
      for i := 0 to npoints
        invariant Indexed(tri, initialAreaList[..], sorted, i)
      {
        assert tree.keys[..][i] == sorted[i];
        PositionInSorted(areas, sorted, i);
        ghost var was := initialAreaList[..];
        initialAreaList[tree.keys[i]] := initialAreaList[tree.keys[i]].(treeIndex := i);
        NextIndexed(tri, was, initialAreaList[..], sorted, i);
      }
      AllIndexed(tri, initialAreaList[..], sorted);
    }

    /** The body of the loop: takes out the root of the heap, refreshes its two neighbours and
        links them to each other. Returns the emitted area. */
    method TakeTurn(tree: MinHeap, i: int, avoidCollapse: int, checkOrderMinArea: real, ghost s: State)
      returns (emitted: real)
      requires Valid() && tree.keys.Length == npoints
      requires Inv(tri, avoidCollapse, s) && 3 <= s.heap.used && |s.heap.nodes| == npoints
      requires tree.Model(initialAreaList) == s.heap && resAreaList[..] == s.res && i == s.turn
      requires checkOrderMinArea == s.last
      modifies tree, tree.keys, initialAreaList, resAreaList
      ensures tree.Model(initialAreaList) == Step(tri, avoidCollapse, s).heap
      ensures initialAreaList[..] == Step(tri, avoidCollapse, s).heap.nodes
      ensures resAreaList[..] == Step(tri, avoidCollapse, s).res && emitted == Step(tri, avoidCollapse, s).last
    {
      TurnShape(tri, avoidCollapse, s);
      hide Inv, Step, Pop, RefreshBefore, RefreshAfter, SetAndUpdate, BackIndexed, Ordered, SetArea;
      var current := tree.PopMin(initialAreaList);
      ghost var h1 := Pop(s.heap);
      if i < npoints - avoidCollapse {
        resAreaList[current] := initialAreaList[current].area;
      } else {
        resAreaList[current] := FLT_MAX;
      }
      emitted := resAreaList[current];
      if emitted < checkOrderMinArea {
        assert false;
      }
      var before := initialAreaList[current].prev;
      var after := initialAreaList[current].next;
      RefreshNeighbours(tree, before, after, emitted);
      ghost var h3 := RefreshAfter(tri, RefreshBefore(tri, h1, before, after, emitted), before, after, emitted);
      initialAreaList[before] := initialAreaList[before].(next := initialAreaList[current].next);
      initialAreaList[after] := initialAreaList[after].(prev := initialAreaList[current].prev);
      assert tree.Model(initialAreaList) == Relink(h3, current, before, after);
    }

    /** New areas for the two neighbours of the point taken out. */
    method RefreshNeighbours(tree: MinHeap, before: int, after: int, emitted: real)
      requires Valid() && tree.keys.Length == npoints && WellFormed(tree.Model(initialAreaList))
      requires 0 <= before < after < npoints && 0 <= initialAreaList[before].treeIndex < npoints
      requires var h2 := RefreshBefore(tri, tree.Model(initialAreaList), before, after, emitted);
               |h2.nodes| == npoints == |h2.keys| && 0 <= h2.nodes[after].treeIndex < npoints
      modifies tree.keys, initialAreaList
      ensures tree.Model(initialAreaList) ==
                var h := old(tree.Model(initialAreaList));
                RefreshAfter(tri, RefreshBefore(tri, h, before, after, emitted), before, after, emitted)
    {
      hide SetAndUpdate;
      ghost var h1 := tree.Model(initialAreaList);
      if before > 0 {
        var area := tri(initialAreaList[before].prev, before, after);
        Refresh(tree, before, Max(area, emitted));
      }
      ghost var h2 := RefreshBefore(tri, h1, before, after, emitted);
      assert tree.Model(initialAreaList) == h2;
      if after < npoints - 1 {
        var area := tri(before, after, initialAreaList[after].next);
        Refresh(tree, after, Max(area, emitted));
      }
    }

    /** Gives point k a new area and restores the heap. */
    method Refresh(tree: MinHeap, k: int, area: real)
      requires Valid() && tree.keys.Length == npoints && WellFormed(tree.Model(initialAreaList))
      requires 0 <= k < npoints && 0 <= initialAreaList[k].treeIndex < npoints
      modifies tree.keys, initialAreaList
      ensures tree.Model(initialAreaList) == SetAndUpdate(old(tree.Model(initialAreaList)), k, area)
    {
      initialAreaList[k] := initialAreaList[k].(area := area);
      assert tree.Model(initialAreaList) == SetArea(old(tree.Model(initialAreaList)), k, area);
      tree.UpdateAt(initialAreaList, initialAreaList[k].treeIndex);
    }

    /** The elimination loop of tune_areas. */
    method Eliminate(tree: MinHeap, avoidCollapse: int, setArea: bool, trshld: real, ghost start: State)
      requires Valid() && tree.keys.Length == npoints
      requires Inv(tri, avoidCollapse, start) && start.heap.used == npoints == |start.heap.nodes|
      requires start.turn == 0 && start.last == 0.0
      requires tree.Model(initialAreaList) == start.heap && resAreaList[..] == start.res
      modifies tree, tree.keys, initialAreaList, resAreaList
      ensures resAreaList[..] == Tune(tri, avoidCollapse, setArea, trshld, start).res
    {
      var checkOrderMinArea := 0.0;
      var i := 0;
      var goOn := true;
      ghost var s := start;
      hide Step, Tune, Inv, MinHeap.Model;
      while goOn
        invariant Inv(tri, avoidCollapse, s) && |s.heap.nodes| == npoints
        invariant tree.Model(initialAreaList) == s.heap && resAreaList[..] == s.res && i == s.turn
        invariant checkOrderMinArea == s.last
        invariant goOn ==> 3 <= s.heap.used
        invariant Tune(tri, avoidCollapse, setArea, trshld, start)
               == if goOn then Tune(tri, avoidCollapse, setArea, trshld, s) else s
        decreases goOn, s.heap.used
      {
        LoopTurn(tri, avoidCollapse, setArea, trshld, s);
        checkOrderMinArea := TakeTurn(tree, i, avoidCollapse, checkOrderMinArea, s);
        s := Step(tri, avoidCollapse, s);
        if (!setArea && checkOrderMinArea >= trshld) || initialAreaList[0].next == npoints - 1 {
          goOn := false;
        }
        i := i + 1;
      }
    }

    /** tune_areas. The lwerror branch for a heap that pops points in the wrong order is dead. */
    method TuneAreas(avoidCollapse: int, setArea: bool, trshld: real)
      requires Valid() && 0 <= avoidCollapse <= 4
      requires forall k :: 0 <= k < npoints ==> initialAreaList[k] == InitialNode(tri, npoints, k, 0)
      requires resAreaList[..] == Start(tri, npoints).res
      modifies initialAreaList, resAreaList
      ensures resAreaList[..] == FinalAreas(tri, npoints, avoidCollapse, setArea, trshld)
    {
      StartSatisfiesInv(tri, npoints, avoidCollapse);
      StartBasics(tri, npoints);
      hide Start, Tune, Inv, MinHeap.Model, InitialNode, SortedKeys, InitialAreas;
      var tree := new MinHeap(npoints);
      FillKeys(tree);
      FillTreeIndex(tree);
      Eliminate(tree, avoidCollapse, setArea, trshld, Start(tri, npoints));
    }
  }
}
