/** The geometries that liblwgeom/effectivearea.c returns: ptarray_set_effective_area,
    lwline_set_effective_area and lwpoly_set_effective_area. */
module EffectiveAreaGeometry {
  import opened FloatRange
  import opened EffectiveArea
  import opened EffectiveAreaRun
  import opened EffectiveAreaCode

  /** The measure of an output point: that of the input point or its effective area. */
  datatype Measure = FromInput | Area(area: real)
  datatype OutPoint = OutPoint(index: int, m: Measure)

  /** A point array: its length and the areas of its triangles. */
  datatype Ring = Ring(npoints: nat, tri: AreaFn)
  datatype Option<T> = None | Some(value: T)

  ghost predicate Increasing(opts: seq<OutPoint>) {
    forall i, j :: 0 <= i < j < |opts| ==> opts[i].index < opts[j].index
  }

  ghost predicate Lists(opts: seq<OutPoint>, k: int) {
    exists j :: 0 <= j < |opts| && opts[j].index == k
  }

  /** Point k reaches the threshold in areas. */
  ghost predicate Reaches(areas: seq<real>, trshld: real, k: int) {
    0 <= k < |areas| && areas[k] >= trshld
  }

  /** opts is the list of the points below p that reach the threshold in areas. */
  ghost predicate Filtered(areas: seq<real>, setArea: bool, trshld: real, p: int, opts: seq<OutPoint>) {
    && Increasing(opts)
    && (forall k :: Lists(opts, k) <==> k < p && Reaches(areas, trshld, k))
    && (forall j :: 0 <= j < |opts| ==>
         0 <= opts[j].index < p <= |areas|
         && opts[j].m == if setArea then Area(areas[opts[j].index]) else FromInput)
  }

  /** opts is the simplification of a ring: in increasing order exactly the points whose effective
      area in the full run, which never stops early, reaches the threshold. */
  ghost predicate Simplified(ring: Ring, avoid: int, setArea: bool, trshld: real, opts: seq<OutPoint>) {
    3 <= ring.npoints && 0 <= avoid <= 4 &&
    Filtered(FinalAreas(ring.tri, ring.npoints, avoid, true, trshld), setArea, trshld, ring.npoints, opts)
  }

  lemma EarlyRunReachesTheSame(ring: Ring, avoid: int, trshld: real, k: int)
    requires 3 <= ring.npoints && 0 <= avoid <= 4
    ensures Reaches(FinalAreas(ring.tri, ring.npoints, avoid, false, trshld), trshld, k)
       <==> Reaches(FinalAreas(ring.tri, ring.npoints, avoid, true, trshld), trshld, k)
  {
    hide Start, Tune, Inv;
    StartSatisfiesInv(ring.tri, ring.npoints, avoid);
    StartBasics(ring.tri, ring.npoints);
    StoppingEarlyIsSound(ring.tri, avoid, trshld, Start(ring.tri, ring.npoints), k);
  }

  lemma EndsReach(ring: Ring, avoid: int, setArea: bool, trshld: real)
    requires 3 <= ring.npoints && 0 <= avoid <= 4
    ensures var areas := FinalAreas(ring.tri, ring.npoints, avoid, setArea, trshld);
            areas[0] == FLT_MAX && areas[ring.npoints - 1] == FLT_MAX
  {
    hide Start, Tune, Inv;
    StartSatisfiesInv(ring.tri, ring.npoints, avoid);
    StartBasics(ring.tri, ring.npoints);
    EndsAreKept(ring.tri, avoid, setArea, trshld, Start(ring.tri, ring.npoints));
  }

  lemma FourReach(ring: Ring, setArea: bool, trshld: real) returns (kept: set<int>)
    requires 4 <= ring.npoints && trshld <= FLT_MAX
    ensures |kept| == 4
    ensures forall k :: k in kept ==> Reaches(FinalAreas(ring.tri, ring.npoints, 4, setArea, trshld), trshld, k)
  {
    hide Start, Tune, Inv;
    StartSatisfiesInv(ring.tri, ring.npoints, 4);
    StartBasics(ring.tri, ring.npoints);
    kept := OuterRingKeepsFour(ring.tri, setArea, trshld, Start(ring.tri, ring.npoints));
    forall k | k in kept ensures Reaches(FinalAreas(ring.tri, ring.npoints, 4, setArea, trshld), trshld, k) {
      assert KeepsPoint(Tune(ring.tri, 4, setArea, trshld, Start(ring.tri, ring.npoints)), trshld, k);
    }
  }

  lemma FilterNext(areas: seq<real>, setArea: bool, trshld: real, p: int, opts: seq<OutPoint>)
    requires 0 <= p < |areas| && Filtered(areas, setArea, trshld, p, opts)
    ensures areas[p] < trshld ==> Filtered(areas, setArea, trshld, p + 1, opts)
    ensures areas[p] >= trshld ==>
      Filtered(areas, setArea, trshld, p + 1, opts + [OutPoint(p, if setArea then Area(areas[p]) else FromInput)])
  {
    ListsAppend(opts, OutPoint(p, if setArea then Area(areas[p]) else FromInput));
  }

  lemma ListsAppend(opts: seq<OutPoint>, p: OutPoint)
    ensures forall k :: Lists(opts + [p], k) <==> Lists(opts, k) || k == p.index
  {
    forall k ensures Lists(opts + [p], k) <==> Lists(opts, k) || k == p.index {
      if Lists(opts, k) {
        var j :| 0 <= j < |opts| && opts[j].index == k;
        assert (opts + [p])[j].index == k;
      }
      if k == p.index { assert (opts + [p])[|opts|].index == k; }
    }
  }

  /** ptarray_set_effective_area. */
  method SetEffectiveArea(ring: Ring, avoidCollapse: int, setArea: bool, trshld: real) returns (opts: seq<OutPoint>)
    requires 3 <= ring.npoints && 0 <= avoidCollapse <= 4
    ensures Simplified(ring, avoidCollapse, setArea, trshld, opts)
  {
    hide FinalAreas, Increasing, Lists, Filtered;
    var ea := new EffectiveAreas(ring.npoints, ring.tri);
    ea.CalcAreas(avoidCollapse, setArea, trshld);
    ghost var areas := FinalAreas(ring.tri, ring.npoints, avoidCollapse, setArea, trshld);
    opts := [];
    NothingFiltered(areas, setArea, trshld);
    for p := 0 to ring.npoints
      invariant ea.resAreaList[..] == areas
      invariant Filtered(areas, setArea, trshld, p, opts)
    {
      FilterNext(areas, setArea, trshld, p, opts);
      if ea.resAreaList[p] >= trshld {
        opts := opts + [OutPoint(p, if setArea then Area(ea.resAreaList[p]) else FromInput)];
      }
    }
    FilterOfEarlyRun(ring, avoidCollapse, setArea, trshld, opts);
  }

  lemma NothingFiltered(areas: seq<real>, setArea: bool, trshld: real)
    ensures Filtered(areas, setArea, trshld, 0, [])
  {
  }

  lemma FilterOfEarlyRun(ring: Ring, avoid: int, setArea: bool, trshld: real, opts: seq<OutPoint>)
    requires 3 <= ring.npoints && 0 <= avoid <= 4
    requires Filtered(FinalAreas(ring.tri, ring.npoints, avoid, setArea, trshld), setArea, trshld, ring.npoints, opts)
    ensures Simplified(ring, avoid, setArea, trshld, opts)
  {
    hide FinalAreas;
    forall k ensures Reaches(FinalAreas(ring.tri, ring.npoints, avoid, setArea, trshld), trshld, k)
                <==> Reaches(FinalAreas(ring.tri, ring.npoints, avoid, true, trshld), trshld, k) {
      EarlyRunReachesTheSame(ring, avoid, trshld, k);
    }
  }

  /** lwline_set_effective_area: fewer than three points are returned as they are. */
  method SetEffectiveAreaLine(line: Ring, setArea: bool, trshld: real) returns (opts: Option<seq<OutPoint>>)
    ensures opts == None <==> line.npoints < 3
    ensures opts.Some? ==> Simplified(line, 2, setArea, trshld, opts.value)
    ensures opts.Some? && trshld <= FLT_MAX ==> Lists(opts.value, 0) && Lists(opts.value, line.npoints - 1)
  {
    hide FinalAreas;
    if line.npoints < 3 {
      return None;
    }
    var o := SetEffectiveArea(line, 2, setArea, trshld);
    EndsReach(line, 2, true, trshld);
    return Some(o);
  }

  lemma {:induction false} ManyListed(opts: seq<OutPoint>, kept: set<int>)
    requires forall k :: k in kept ==> Lists(opts, k)
    ensures |kept| <= |opts|
  {
    if opts == [] {
      assert forall k :: k in kept ==> false;
      assert kept == {};
    } else {
      var n := |opts| - 1;
      var rest := kept - {opts[n].index};
      forall k | k in rest ensures Lists(opts[..n], k) {
        var j :| 0 <= j < |opts| && opts[j].index == k;
        assert opts[..n][j].index == k;
      }
      ManyListed(opts[..n], rest);
      assert kept <= rest + {opts[n].index};
      SmallerSet(kept, rest + {opts[n].index});
    }
  }

  lemma {:induction false} SmallerSet(a: set<int>, b: set<int>)
    requires a <= b
    ensures |a| <= |b|
  {
    assert b == a + (b - a);
  }

  lemma OuterRingSurvives(ring: Ring, setArea: bool, trshld: real, opts: seq<OutPoint>)
    requires 4 <= ring.npoints && trshld <= FLT_MAX && Simplified(ring, 4, setArea, trshld, opts)
    ensures 4 <= |opts|
  {
    hide FinalAreas;
    var kept := FourReach(ring, true, trshld);
    ManyListed(opts, kept);
  }

  lemma LastIsLargest(opts: seq<OutPoint>, k: int)
    requires Increasing(opts) && opts != []
    ensures var n := |opts| - 1;
            && (Lists(opts, k) ==> k <= opts[n].index) && Lists(opts, opts[n].index)
            && (Lists(opts[..n], k) <==> Lists(opts, k) && k != opts[n].index)
  {
    var n := |opts| - 1;
    if Lists(opts, k) && k != opts[n].index {
      var j :| 0 <= j < |opts| && opts[j].index == k;
      assert opts[..n][j].index == k;
    }
  }

  lemma {:induction false} SameIndices(a: seq<OutPoint>, b: seq<OutPoint>)
    requires Increasing(a) && Increasing(b) && forall k :: Lists(a, k) <==> Lists(b, k)
    ensures |a| == |b| && forall j :: 0 <= j < |a| ==> a[j].index == b[j].index
  {
    hide Lists;
    if a == [] || b == [] {
      if a != [] { LastIsLargest(a, 0); NothingListed(a[|a| - 1].index); }
      if b != [] { LastIsLargest(b, 0); NothingListed(b[|b| - 1].index); }
    } else {
      var m, n := |a| - 1, |b| - 1;
      LastIsLargest(a, b[n].index);
      LastIsLargest(b, a[m].index);
      forall k ensures Lists(a[..m], k) <==> Lists(b[..n], k) {
        LastIsLargest(a, k);
        LastIsLargest(b, k);
      }
      SameIndices(a[..m], b[..n]);
    }
  }

  lemma NothingListed(k: int)
    ensures !Lists([], k)
  {
  }

  /** A ring has one simplification. */
  lemma SimplifiedIsUnique(ring: Ring, avoid: int, setArea: bool, trshld: real, a: seq<OutPoint>, b: seq<OutPoint>)
    requires Simplified(ring, avoid, setArea, trshld, a) && Simplified(ring, avoid, setArea, trshld, b)
    ensures a == b
  {
    hide FinalAreas, Lists;
    SameIndices(a, b);
  }

  /** Every ring simplified by itself, four points of the first one being kept from collapse. */
  ghost predicate AllSimplified(rings: seq<Ring>, setArea: bool, trshld: real, all: seq<seq<OutPoint>>) {
    && |all| <= |rings|
    && forall i :: 0 <= i < |all| ==> Simplified(rings[i], if i == 0 then 4 else 0, setArea, trshld, all[i])
  }

  /** The rings with at least four points, in their order. */
  function Surviving(all: seq<seq<OutPoint>>): (out: seq<seq<OutPoint>>)
    ensures forall i :: 0 <= i < |out| ==> 4 <= |out[i]| && out[i] in all
    ensures forall i :: 0 <= i < |all| && 4 <= |all[i]| ==> all[i] in out
  {
    if all == [] then []
    else
      var n := |all| - 1;
      Surviving(all[..n]) + if 4 <= |all[n]| then [all[n]] else []
  }

  lemma SurvivingNext(all: seq<seq<OutPoint>>, pa: seq<OutPoint>)
    ensures Surviving(all + [pa]) == Surviving(all) + if 4 <= |pa| then [pa] else []
  {
    assert (all + [pa])[..|all|] == all;
  }

  lemma {:induction false} FirstSurvives(all: seq<seq<OutPoint>>)
    requires all != [] && 4 <= |all[0]|
    ensures Surviving(all) != [] && Surviving(all)[0] == all[0]
  {
    if |all| > 1 { FirstSurvives(all[..|all| - 1]); }
  }

  /** The outer ring of a polygon stays the outer ring. */
  lemma PolygonSurvives(rings: seq<Ring>, setArea: bool, trshld: real, all: seq<seq<OutPoint>>)
    requires AllSimplified(rings, setArea, trshld, all) && all != []
    requires 4 <= rings[0].npoints && trshld <= FLT_MAX
    ensures Surviving(all) != [] && Surviving(all)[0] == all[0]
  {
    hide Simplified;
    OuterRingSurvives(rings[0], setArea, trshld, all[0]);
    FirstSurvives(all);
  }

  /** lwpoly_set_effective_area: every ring is simplified, the rings left with fewer than four points
      are dropped, and a polygon left without rings is NULL. */
  method SetEffectiveAreaPolygon(rings: seq<Ring>, setArea: bool, trshld: real)
    returns (opoly: Option<seq<seq<OutPoint>>>, ghost all: seq<seq<OutPoint>>)
    requires forall i :: 0 <= i < |rings| ==> 3 <= rings[i].npoints
    ensures |all| == |rings| && AllSimplified(rings, setArea, trshld, all)
    ensures opoly == if rings != [] && Surviving(all) == [] then None else Some(Surviving(all))
    ensures rings != [] && 4 <= rings[0].npoints && trshld <= FLT_MAX ==>
      opoly.Some? && opoly.value != [] && Simplified(rings[0], 4, setArea, trshld, opoly.value[0])
  {
    hide Simplified, Surviving;
    all := [];
    EmptySurvives();
    if rings == [] {
      return Some([]), all;
    }
    var avoidCollapse := 4;
    var out: seq<seq<OutPoint>> := [];
    for i := 0 to |rings|
      invariant avoidCollapse == if i == 0 then 4 else 0
      invariant |all| == i && AllSimplified(rings, setArea, trshld, all) && out == Surviving(all)
    {
      var pa := SetEffectiveArea(rings[i], avoidCollapse, setArea, trshld);
      SurvivingNext(all, pa);
      all := all + [pa];
      if |pa| >= 4 {
        out := out + [pa];
      }
      avoidCollapse := 0;
    }
    if 4 <= rings[0].npoints && trshld <= FLT_MAX {
      PolygonSurvives(rings, setArea, trshld, all);
    }
    opoly := if out == [] then None else Some(out);
  }

  lemma EmptySurvives()
    ensures Surviving([]) == []
  {
  }
}
