/** Whole runs of the elimination loop of liblwgeom/effectivearea.c: what every run does,
    whatever the threshold, and the run as the naive algorithm without a heap would do it. */
module EffectiveAreaRun {
  import opened FloatRange
  import opened AreaHeap
  import opened EffectiveArea

  /** The loop stops after a turn that emits the threshold or more (unless all areas are wanted),
      or when only the end points are left. */
  ghost predicate Stops(setArea: bool, trshld: real, s: State)
    requires WellFormed(s.heap) && 0 < |s.heap.nodes|
  {
    (!setArea && s.last >= trshld) || s.heap.nodes[0].next == |s.heap.nodes| - 1
  }

  /** The first point links to the last exactly when no interior point is left. */
  lemma OnlyEndsLeft(tri: AreaFn, avoid: int, s: State)
    requires Inv(tri, avoid, s)
    ensures s.heap.nodes[0].next == |s.heap.nodes| - 1 <==> s.heap.used == 2
  {
    var h := s.heap;
    assert LinkedAfter(h, 0);
    var m := h.nodes[0].next;
    if m == |h.nodes| - 1 {
      if 3 <= h.used {
        var j := SomeInterior(h);
      }
    } else {
      var n := |h.nodes|;
      assert h.nodes[0].treeIndex != h.nodes[m].treeIndex && h.nodes[n - 1].treeIndex != h.nodes[m].treeIndex
        && h.nodes[0].treeIndex != h.nodes[n - 1].treeIndex;
    }
  }

  ghost function Tune(tri: AreaFn, avoid: int, setArea: bool, trshld: real, s: State): (r: State)
    requires Inv(tri, avoid, s) && 3 <= s.heap.used
    ensures Inv(tri, avoid, r)
    decreases s.heap.used
  {
    StepKeepsInv(tri, avoid, s);
    var t := Step(tri, avoid, s);
    OnlyEndsLeft(tri, avoid, t);
    if Stops(setArea, trshld, t) then t else Tune(tri, avoid, setArea, trshld, t)
  }

  // ----- a run as the list of what it emits -----

  /** A turn takes out a point and emits an area for it. */
  datatype Emission = Emission(point: int, area: real)

  /** What a full run emits from state s on. */
  ghost function Emissions(tri: AreaFn, avoid: int, s: State): seq<Emission>
    requires Inv(tri, avoid, s)
    decreases s.heap.used
  {
    if s.heap.used == 2 then []
    else
      StepKeepsInv(tri, avoid, s);
      var t := Step(tri, avoid, s);
      [Emission(s.heap.keys[0], t.last)] + Emissions(tri, avoid, t)
  }

  ghost predicate PointsBelow(ems: seq<Emission>, n: nat) {
    forall j :: 0 <= j < |ems| ==> 0 <= ems[j].point < n
  }

  /** The emitted areas, written into res one after the other. */
  ghost function Apply(res: seq<real>, ems: seq<Emission>): (r: seq<real>)
    requires PointsBelow(ems, |res|)
    ensures |r| == |res|
    decreases |ems|
  {
    if ems == [] then res else Apply(res[ems[0].point := ems[0].area], ems[1..])
  }

  /** The number of turns a run makes. */
  ghost function TurnsMade(setArea: bool, trshld: real, ems: seq<Emission>): (m: nat)
    ensures m <= |ems|
  {
    if ems == [] then 0
    else if !setArea && ems[0].area >= trshld then 1
    else 1 + TurnsMade(setArea, trshld, ems[1..])
  }

  /** One turn as the proofs about runs use it. */
  lemma Turn(tri: AreaFn, avoid: int, s: State) returns (c: int, t: State)
    requires Inv(tri, avoid, s) && 3 <= s.heap.used
    ensures c == s.heap.keys[0] && t == Step(tri, avoid, s) && TurnTo(tri, avoid, s, t, c)
    ensures Inv(tri, avoid, t) && t.heap.used == s.heap.used - 1 && s.last <= t.last <= FLT_MAX
    ensures Emissions(tri, avoid, s) == [Emission(c, t.last)] + Emissions(tri, avoid, t)
    ensures t.heap.used == 2 ==> Emissions(tri, avoid, t) == []
    ensures forall setArea, trshld ::
      Tune(tri, avoid, setArea, trshld, s)
      == if (!setArea && t.last >= trshld) || t.heap.used == 2 then t else Tune(tri, avoid, setArea, trshld, t)
  {
    StepKeepsInv(tri, avoid, s);
    StepEffect(tri, avoid, s);
    c, t := s.heap.keys[0], Step(tri, avoid, s);
    OnlyEndsLeft(tri, avoid, t);
  }

  lemma NoTurnLeft(tri: AreaFn, avoid: int, s: State)
    requires Inv(tri, avoid, s)
    ensures Emissions(tri, avoid, s) == [] <==> s.heap.used == 2
  {
  }

  lemma OnlyEndsAreLive(tri: AreaFn, avoid: int, s: State, k: int)
    requires Inv(tri, avoid, s) && s.heap.used == 2
    ensures !Interior(s.heap, k)
  {
    if Interior(s.heap, k) {
      ThreeLive(s.heap, 0, |s.heap.nodes| - 1, k);
    }
  }

  lemma ThreeLive(h: Heap, p: int, q: int, r: int)
    requires WellFormed(h) && InHeap(h, p) && InHeap(h, q) && InHeap(h, r) && p != q && p != r && q != r
    ensures 3 <= h.used
  {
    var a, b, c := h.nodes[p].treeIndex, h.nodes[q].treeIndex, h.nodes[r].treeIndex;
    assert a != b && a != c && b != c;
  }

  ghost function Count(ems: seq<Emission>, k: int): nat {
    if ems == [] then 0 else (if ems[0].point == k then 1 else 0) + Count(ems[1..], k)
  }

  /** A full run takes out every live interior point exactly once and nothing else,
      in particular neither end point. */
  lemma {:induction false} EveryInteriorPoppedOnce(tri: AreaFn, avoid: int, s: State, k: int)
    requires Inv(tri, avoid, s)
    ensures Count(Emissions(tri, avoid, s), k) == if Interior(s.heap, k) then 1 else 0
    decreases s.heap.used
  {
    hide Step, Emissions, Tune;
    NoTurnLeft(tri, avoid, s);
    if s.heap.used == 2 {
      OnlyEndsAreLive(tri, avoid, s, k);
    } else {
      var c, t := Turn(tri, avoid, s);
      assert Emissions(tri, avoid, s)[1..] == Emissions(tri, avoid, t);
      EveryInteriorPoppedOnce(tri, avoid, t, k);
    }
  }

  /** Emitted areas lie between the last one and FLT_MAX and never decrease. */
  lemma {:induction false} EmittedAreasRise(tri: AreaFn, avoid: int, s: State, i: int, j: int)
    requires Inv(tri, avoid, s) && 0 <= i <= j < |Emissions(tri, avoid, s)|
    ensures var ems := Emissions(tri, avoid, s); s.last <= ems[i].area <= ems[j].area <= FLT_MAX
    decreases s.heap.used
  {
    hide Step, Emissions, Tune;
    NoTurnLeft(tri, avoid, s);
    var c, t := Turn(tri, avoid, s);
    if 0 < j {
      EmittedAreasRise(tri, avoid, t, if i == 0 then 0 else i - 1, j - 1);
    }
  }

  lemma {:induction false} EmittedPoint(tri: AreaFn, avoid: int, s: State, j: int)
    requires Inv(tri, avoid, s) && 0 <= j < |Emissions(tri, avoid, s)|
    ensures |Emissions(tri, avoid, s)| == s.heap.used - 2
    ensures 0 < Emissions(tri, avoid, s)[j].point < |s.heap.nodes| - 1
    ensures s.turn + j >= |s.heap.nodes| - avoid ==> Emissions(tri, avoid, s)[j].area == FLT_MAX
    decreases s.heap.used
  {
    hide Step, Emissions, Tune;
    NoTurnLeft(tri, avoid, s);
    var c, t := Turn(tri, avoid, s);
    NoTurnLeft(tri, avoid, t);
    if t.heap.used != 2 {
      EmittedPoint(tri, avoid, t, if j == 0 then 0 else j - 1);
    }
  }

  lemma EmittedPoints(tri: AreaFn, avoid: int, s: State)
    requires Inv(tri, avoid, s)
    ensures PointsBelow(Emissions(tri, avoid, s), |s.res|) && |Emissions(tri, avoid, s)| == s.heap.used - 2
  {
    hide Step, Emissions, Tune;
    NoTurnLeft(tri, avoid, s);
    var ems := Emissions(tri, avoid, s);
    if s.heap.used != 2 {
      var c, t := Turn(tri, avoid, s);
      forall j | 0 <= j < |ems| ensures 0 <= ems[j].point < |s.res| {
        EmittedPoint(tri, avoid, s, j);
      }
      EmittedPoint(tri, avoid, s, 0);
    }
  }

  lemma ApplyFirst(res: seq<real>, first: Emission, rest: seq<Emission>, m: nat)
    requires 0 <= first.point < |res| && PointsBelow(rest, |res|) && m <= |rest|
    ensures PointsBelow(([first] + rest)[..m + 1], |res|)
    ensures Apply(res, ([first] + rest)[..m + 1]) == Apply(res[first.point := first.area], rest[..m])
  {
    assert ([first] + rest)[..m + 1] == [first] + rest[..m];
    assert ([first] + rest[..m])[1..] == rest[..m];
  }

  lemma TurnsMadeFirst(setArea: bool, trshld: real, first: Emission, rest: seq<Emission>)
    ensures TurnsMade(setArea, trshld, [first] + rest)
         == if !setArea && first.area >= trshld then 1 else 1 + TurnsMade(setArea, trshld, rest)
  {
    assert ([first] + rest)[1..] == rest;
  }

  /** Every run writes a prefix of what the full run emits. */
  lemma {:induction false} RunIsPrefixOfFullRun(tri: AreaFn, avoid: int, setArea: bool, trshld: real, s: State)
    requires Inv(tri, avoid, s) && 3 <= s.heap.used
    ensures PointsBelow(Emissions(tri, avoid, s), |s.res|)
    ensures var ems := Emissions(tri, avoid, s);
            Tune(tri, avoid, setArea, trshld, s).res == Apply(s.res, ems[..TurnsMade(setArea, trshld, ems)])
    decreases s.heap.used
  {
    hide Step, Emissions, Tune, TurnsMade, Apply, AreasAreCurrent, Linked, Ordered, Emitted;
    EmittedPoints(tri, avoid, s);
    var c, t := Turn(tri, avoid, s);
    EmittedPoints(tri, avoid, t);
    var rest := Emissions(tri, avoid, t);
    TurnsMadeFirst(setArea, trshld, Emission(c, t.last), rest);
    if (!setArea && t.last >= trshld) || t.heap.used == 2 {
      ApplyFirst(s.res, Emission(c, t.last), rest, 0);
      ApplyNothing(t.res);
      NothingToMake(setArea, trshld);
    } else {
      RunIsPrefixOfFullRun(tri, avoid, setArea, trshld, t);
      ApplyFirst(s.res, Emission(c, t.last), rest, TurnsMade(setArea, trshld, rest));
    }
  }

  lemma ApplyNothing(res: seq<real>)
    ensures Apply(res, []) == res
  {
  }

  lemma NothingToMake(setArea: bool, trshld: real)
    ensures TurnsMade(setArea, trshld, []) == 0
  {
  }

  // ----- what a prefix of the emissions leaves in res -----

  lemma {:induction false} ApplyLeaves(res: seq<real>, ems: seq<Emission>, k: int)
    requires PointsBelow(ems, |res|) && 0 <= k < |res|
    requires forall j :: 0 <= j < |ems| ==> ems[j].point != k
    ensures Apply(res, ems)[k] == res[k]
    decreases |ems|
  {
    if ems != [] {
      ApplyLeaves(res[ems[0].point := ems[0].area], ems[1..], k);
    }
  }

  lemma {:induction false} ApplyWrites(res: seq<real>, ems: seq<Emission>, j: int)
    requires PointsBelow(ems, |res|) && 0 <= j < |ems|
    requires forall i :: j < i < |ems| ==> ems[i].point != ems[j].point
    ensures Apply(res, ems)[ems[j].point] == ems[j].area
    decreases |ems|
  {
    var res1 := res[ems[0].point := ems[0].area];
    if j == 0 {
      ApplyLeaves(res1, ems[1..], ems[0].point);
    } else {
      ApplyWrites(res1, ems[1..], j - 1);
    }
  }

  lemma {:induction false} CountAtMost(ems: seq<Emission>, i: int, j: int)
    requires 0 <= i < j < |ems| && ems[i].point == ems[j].point
    ensures 2 <= Count(ems, ems[i].point)
  {
    if 0 < i {
      CountAtMost(ems[1..], i - 1, j - 1);
    } else {
      CountPositive(ems[1..], j - 1);
    }
  }

  lemma {:induction false} CountPositive(ems: seq<Emission>, j: int)
    requires 0 <= j < |ems|
    ensures 1 <= Count(ems, ems[j].point)
  {
    if 0 < j { CountPositive(ems[1..], j - 1); }
  }

  lemma {:induction false} CountZero(ems: seq<Emission>, k: int)
    requires Count(ems, k) == 0
    ensures forall j :: 0 <= j < |ems| ==> ems[j].point != k
  {
    if ems != [] { CountZero(ems[1..], k); }
  }

  /** A run that stops early has just emitted the threshold or more. */
  lemma {:induction false} StoppedAtThreshold(setArea: bool, trshld: real, ems: seq<Emission>)
    requires TurnsMade(setArea, trshld, ems) < |ems|
    ensures var m := TurnsMade(setArea, trshld, ems); 0 < m && ems[m - 1].area >= trshld
  {
    if setArea || ems[0].area < trshld {
      StoppedAtThreshold(setArea, trshld, ems[1..]);
    }
  }

  lemma {:induction false} FullRunMakesAllTurns(trshld: real, ems: seq<Emission>)
    ensures TurnsMade(true, trshld, ems) == |ems|
  {
    if ems != [] { FullRunMakesAllTurns(trshld, ems[1..]); }
  }

  ghost function PlaceOf(ems: seq<Emission>, k: int): (j: int)
    ensures 0 <= j <= |ems|
    ensures j < |ems| ==> ems[j].point == k
    ensures forall i :: 0 <= i < j ==> ems[i].point != k
  {
    if ems == [] || ems[0].point == k then 0 else 1 + PlaceOf(ems[1..], k)
  }

  /** The final entry of point k: what its turn emitted when the run got that far, and what it
      was before otherwise. */
  lemma FinalEntry(tri: AreaFn, avoid: int, setArea: bool, trshld: real, s: State, k: int)
    requires Inv(tri, avoid, s) && 3 <= s.heap.used && 0 <= k < |s.res|
    ensures var ems := Emissions(tri, avoid, s); var r := Tune(tri, avoid, setArea, trshld, s).res;
            && |r| == |s.res|
            && r[k] == if PlaceOf(ems, k) < TurnsMade(setArea, trshld, ems) then ems[PlaceOf(ems, k)].area else s.res[k]
  {
    hide Step, Emissions, Tune;
    RunIsPrefixOfFullRun(tri, avoid, setArea, trshld, s);
    EveryInteriorPoppedOnce(tri, avoid, s, k);
    var ems := Emissions(tri, avoid, s);
    var m := TurnsMade(setArea, trshld, ems);
    var j := PlaceOf(ems, k);
    if j < m {
      forall i | j < i < m ensures ems[i].point != k {
        if ems[i].point == k { CountAtMost(ems, j, i); }
      }
      ApplyWrites(s.res, ems[..m], j);
    } else {
      ApplyLeaves(s.res, ems[..m], k);
    }
  }

  // ----- what every run guarantees -----

  ghost predicate KeepsPoint(s: State, trshld: real, k: int) {
    0 <= k < |s.res| && s.res[k] >= trshld
  }

  lemma EmittedPointsWereOpen(tri: AreaFn, avoid: int, s: State, k: int)
    requires Inv(tri, avoid, s) && 0 <= k < |s.res| && PlaceOf(Emissions(tri, avoid, s), k) < |Emissions(tri, avoid, s)|
    ensures s.res[k] == FLT_MAX
  {
    var ems := Emissions(tri, avoid, s);
    EveryInteriorPoppedOnce(tri, avoid, s, k);
    CountPositive(ems, PlaceOf(ems, k));
  }

  /** For every threshold the run that stops early keeps exactly the points the full run keeps. */
  lemma StoppingEarlyIsSound(tri: AreaFn, avoid: int, trshld: real, s: State, k: int)
    requires Inv(tri, avoid, s) && 3 <= s.heap.used
    ensures KeepsPoint(Tune(tri, avoid, false, trshld, s), trshld, k) <==>
              KeepsPoint(Tune(tri, avoid, true, trshld, s), trshld, k)
  {
    hide Step, Emissions, Tune;
    var ems := Emissions(tri, avoid, s);
    var m := TurnsMade(false, trshld, ems);
    FinalEntry(tri, avoid, false, trshld, s, 0);
    FinalEntry(tri, avoid, true, trshld, s, 0);
    FullRunMakesAllTurns(trshld, ems);
    if 0 <= k < |s.res| {
      FinalEntry(tri, avoid, false, trshld, s, k);
      FinalEntry(tri, avoid, true, trshld, s, k);
      var j := PlaceOf(ems, k);
      if m <= j < |ems| {
        StoppedAtThreshold(false, trshld, ems);
        EmittedAreasRise(tri, avoid, s, m - 1, j);
        EmittedPointsWereOpen(tri, avoid, s, k);
      }
    }
  }

  /** A larger threshold keeps no point that a smaller one drops, in either mode of the run. */
  lemma KeptSetsAreNested(tri: AreaFn, avoid: int, setArea1: bool, setArea2: bool, low: real, high: real, s: State,
                          k: int)
    requires Inv(tri, avoid, s) && 3 <= s.heap.used && low <= high
    requires KeepsPoint(Tune(tri, avoid, setArea2, high, s), high, k)
    ensures KeepsPoint(Tune(tri, avoid, setArea1, low, s), low, k)
  {
    hide Step, Emissions, Tune;
    StoppingEarlyIsSound(tri, avoid, high, s, k);
    StoppingEarlyIsSound(tri, avoid, low, s, k);
    FullRunMakesAllTurns(high, Emissions(tri, avoid, s));
    FullRunMakesAllTurns(low, Emissions(tri, avoid, s));
    RunIsPrefixOfFullRun(tri, avoid, true, high, s);
    RunIsPrefixOfFullRun(tri, avoid, true, low, s);
  }

  /** Both end points keep FLT_MAX in every run. */
  lemma EndsAreKept(tri: AreaFn, avoid: int, setArea: bool, trshld: real, s: State)
    requires Inv(tri, avoid, s) && 3 <= s.heap.used
    ensures var r := Tune(tri, avoid, setArea, trshld, s);
            |r.res| == |s.res| && r.res[0] == FLT_MAX && r.res[|r.res| - 1] == FLT_MAX
  {
    hide Step, Emissions, Tune;
    FinalEntry(tri, avoid, setArea, trshld, s, 0);
    var r := Tune(tri, avoid, setArea, trshld, s);
    assert InHeap(r.heap, 0) && InHeap(r.heap, |r.heap.nodes| - 1);
  }

  /** With avoidCollapse 4 (outer rings) the last two turns of a full run emit FLT_MAX, so with
      the end points some min(n, 4) points survive every threshold up to FLT_MAX. */
  lemma OuterRingKeepsFour(tri: AreaFn, setArea: bool, trshld: real, s: State) returns (kept: set<int>)
    requires Inv(tri, 4, s) && 3 <= s.heap.used && trshld <= FLT_MAX
    ensures |kept| == (if s.heap.used < 4 then 3 else 4)
    ensures forall k :: k in kept ==> KeepsPoint(Tune(tri, 4, setArea, trshld, s), trshld, k)
  {
    hide Step, Emissions, Tune;
    var ems := Emissions(tri, 4, s);
    EmittedPoints(tri, 4, s);
    EndsAreKept(tri, 4, setArea, trshld, s);
    var last := |ems| - 1;
    LateEmissionIsKept(tri, setArea, trshld, s, last);
    kept := {0, |s.res| - 1, ems[last].point};
    if 0 < last {
      LateEmissionIsKept(tri, setArea, trshld, s, last - 1);
      EveryInteriorPoppedOnce(tri, 4, s, ems[last].point);
      if ems[last - 1].point == ems[last].point { CountAtMost(ems, last - 1, last); }
      kept := kept + {ems[last - 1].point};
    }
  }

  lemma LateEmissionIsKept(tri: AreaFn, setArea: bool, trshld: real, s: State, j: int)
    requires Inv(tri, 4, s) && 3 <= s.heap.used && trshld <= FLT_MAX
    requires 0 <= j < |Emissions(tri, 4, s)| <= j + 2
    ensures var k := Emissions(tri, 4, s)[j].point;
            0 < k < |s.res| - 1 && KeepsPoint(Tune(tri, 4, setArea, trshld, s), trshld, k)
  {
    hide Step, Emissions, Tune;
    var ems := Emissions(tri, 4, s);
    var k := ems[j].point;
    EmittedPoint(tri, 4, s, j);
    FinalEntry(tri, 4, setArea, trshld, s, k);
    var i := PlaceOf(ems, k);
    EmittedPointsWereOpen(tri, 4, s, k);
    EveryInteriorPoppedOnce(tri, 4, s, k);
    if i < j { CountAtMost(ems, i, j); }
  }

  // ----- the naive algorithm: no heap, no cached areas, no links -----

  ghost function LiveSet(h: Heap): set<int>
    requires WellFormed(h)
  {
    set k | 0 <= k < |h.nodes| && InHeap(h, k)
  }

  function PrevLive(live: set<int>, k: int): (p: int)
    requires 0 in live && 0 < k
    ensures p in live && 0 <= p < k && forall x :: p < x < k ==> x !in live
    decreases k
  {
    if k - 1 in live then k - 1 else PrevLive(live, k - 1)
  }

  function NextLive(live: set<int>, k: int, n: int): (p: int)
    requires n - 1 in live && k < n - 1
    ensures p in live && k < p <= n - 1 && forall x :: k < x < p ==> x !in live
    decreases n - k
  {
    if k + 1 in live then k + 1 else NextLive(live, k + 1, n)
  }

  /** The effective area of interior point k among the live points. */
  function NaiveArea(tri: AreaFn, live: set<int>, n: int, last: real, k: int): real
    requires 0 in live && n - 1 in live && 0 < k < n - 1
  {
    Max(tri(PrevLive(live, k), k, NextLive(live, k, n)), last)
  }

  ghost predicate NaiveMinimum(tri: AreaFn, live: set<int>, n: int, last: real, c: int)
    requires 0 in live && n - 1 in live
  {
    && c in live && 0 < c < n - 1
    && forall k :: k in live && 0 < k < n - 1 ==> NaiveArea(tri, live, n, last, c) <= NaiveArea(tri, live, n, last, k)
  }

  /** ems eliminates the interior points one by one, always one of least effective area, and
      emits that area, or FLT_MAX in the last avoid turns. */
  ghost predicate NaiveRun(tri: AreaFn, n: int, avoid: int, live: set<int>, turn: int, last: real, ems: seq<Emission>)
    requires 0 in live && n - 1 in live
    decreases |ems|
  {
    if ems == [] then forall k :: k in live ==> k == 0 || k == n - 1
    else
      && NaiveMinimum(tri, live, n, last, ems[0].point)
      && ems[0].area == (if turn < n - avoid then NaiveArea(tri, live, n, last, ems[0].point) else FLT_MAX)
      && NaiveRun(tri, n, avoid, live - {ems[0].point}, turn + 1, ems[0].area, ems[1..])
  }

  lemma StoredAreaIsNaive(tri: AreaFn, avoid: int, s: State, k: int)
    requires Inv(tri, avoid, s) && Interior(s.heap, k)
    ensures 0 in LiveSet(s.heap) && |s.heap.nodes| - 1 in LiveSet(s.heap)
    ensures s.heap.nodes[k].area == NaiveArea(tri, LiveSet(s.heap), |s.heap.nodes|, s.last, k)
  {
    var h := s.heap;
    var live := LiveSet(h);
    assert LinkedAfter(h, k) && LinkedBefore(h, k) && AreaIsCurrent(tri, h, s.last, k);
    var p := h.nodes[k].prev;
    assert LinkedAfter(h, p);
    assert p in live && h.nodes[k].next in live && 0 in live && |h.nodes| - 1 in live;
    var p' := PrevLive(live, k);
    var m' := NextLive(live, k, |h.nodes|);
    assert p' == p by { assert p <= p'; assert p' in live; }
    assert m' == h.nodes[k].next by { assert m' in live; }
  }

  /** The root of the heap is what the naive algorithm would take out. */
  lemma RootIsNaiveMinimum(tri: AreaFn, avoid: int, s: State)
    requires Inv(tri, avoid, s) && 3 <= s.heap.used
    ensures var live := LiveSet(s.heap); var n := |s.heap.nodes|; var c := s.heap.keys[0];
            && 0 in live && n - 1 in live && NaiveMinimum(tri, live, n, s.last, c)
            && s.heap.nodes[c].area == NaiveArea(tri, live, n, s.last, c)
  {
    var h := s.heap;
    var n := |h.nodes|;
    var c := h.keys[0];
    RootIsInterior(tri, avoid, s);
    StoredAreaIsNaive(tri, avoid, s, c);
    forall k | k in LiveSet(h) && 0 < k < n - 1
      ensures NaiveArea(tri, LiveSet(h), n, s.last, c) <= NaiveArea(tri, LiveSet(h), n, s.last, k)
    {
      StoredAreaIsNaive(tri, avoid, s, k);
      RootIsMinimum(h, h.nodes[k].treeIndex);
    }
  }

  lemma LiveSetShrinks(h: Heap, r: Heap, c: int)
    requires WellFormed(h) && WellFormed(r) && |r.nodes| == |h.nodes|
    requires forall k :: InHeap(r, k) <==> InHeap(h, k) && k != c
    ensures LiveSet(r) == LiveSet(h) - {c}
  {
  }

  lemma LiveTurn(tri: AreaFn, avoid: int, s: State) returns (c: int, t: State)
    requires Inv(tri, avoid, s) && 3 <= s.heap.used
    ensures c == s.heap.keys[0] && 0 <= c < |s.heap.nodes|
    ensures Inv(tri, avoid, t) && t.heap.used == s.heap.used - 1 && |t.heap.nodes| == |s.heap.nodes|
    ensures t.turn == s.turn + 1
    ensures Emissions(tri, avoid, s) == [Emission(c, t.last)] + Emissions(tri, avoid, t)
    ensures LiveSet(t.heap) == LiveSet(s.heap) - {c}
    ensures t.last == EmittedArea(s, avoid, s.heap.nodes[c].area)
  {
    hide Step, Emissions, Tune, LiveSet, Linked, Ordered, BackIndexed, AreasAreCurrent, Emitted, TurnNodes;
    c, t := Turn(tri, avoid, s);
    LiveSetShrinks(s.heap, t.heap, c);
  }

  lemma NoInteriorLeft(tri: AreaFn, avoid: int, s: State)
    requires Inv(tri, avoid, s) && s.heap.used == 2
    ensures 0 in LiveSet(s.heap) && |s.heap.nodes| - 1 in LiveSet(s.heap)
    ensures forall k :: k in LiveSet(s.heap) ==> k == 0 || k == |s.heap.nodes| - 1
  {
    forall k | k in LiveSet(s.heap) ensures k == 0 || k == |s.heap.nodes| - 1 {
      OnlyEndsAreLive(tri, avoid, s, k);
    }
  }

  /** The heap, the cached areas and the links together do what the naive algorithm does. */
  lemma {:induction false} FullRunIsNaive(tri: AreaFn, avoid: int, s: State)
    requires Inv(tri, avoid, s)
    ensures 0 in LiveSet(s.heap) && |s.heap.nodes| - 1 in LiveSet(s.heap)
    ensures NaiveRun(tri, |s.heap.nodes|, avoid, LiveSet(s.heap), s.turn, s.last, Emissions(tri, avoid, s))
    decreases s.heap.used
  {
    hide Step, Emissions, Tune, NaiveMinimum, NaiveArea, LiveSet, Linked;
    hide Ordered, BackIndexed, AreasAreCurrent, Emitted;
    NoTurnLeft(tri, avoid, s);
    if s.heap.used == 2 {
      NoInteriorLeft(tri, avoid, s);
    } else {
      RootIsNaiveMinimum(tri, avoid, s);
      var c, t := LiveTurn(tri, avoid, s);
      assert ([Emission(c, t.last)] + Emissions(tri, avoid, t))[1..] == Emissions(tri, avoid, t);
      FullRunIsNaive(tri, avoid, t);
    }
  }
}
