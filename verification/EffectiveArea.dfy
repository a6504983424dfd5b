/** Visvalingam-Whyatt line simplification: one turn of the elimination loop of tune_areas in
    liblwgeom/effectivearea.c.

    A State is everything a turn reads and writes: the node list with its heap, the emitted areas, the
    turn number and the last emitted area. Step is one turn, and Inv what every turn keeps. FLT_MAX is
    the sentinel area of the two end points. */
module EffectiveArea {
  import opened FloatRange
  import opened AreaHeap

  /** The triangle area of three points, given by their indices. */
  type AreaFn = f: (int, int, int) -> real | forall i, j, k :: 0.0 <= f(i, j, k) < FLT_MAX
    witness (i, j, k) => 0.0

  datatype State = State(heap: Heap, res: seq<real>, turn: int, last: real)

  function Max(a: real, b: real): real {
    if a > b then a else b
  }

  // ----- the list of surviving points -----

  ghost predicate Interior(h: Heap, k: int)
    requires WellFormed(h)
  {
    InHeap(h, k) && 0 < k < |h.nodes| - 1
  }

  /** next leads from live point k to the following live point, and prev leads back. */
  ghost predicate LinkedAfter(h: Heap, k: int)
    requires WellFormed(h) && 0 <= k < |h.nodes|
  {
    var m := h.nodes[k].next;
    InHeap(h, m) && k < m && h.nodes[m].prev == k && forall x :: k < x < m ==> !InHeap(h, x)
  }

  ghost predicate LinkedBefore(h: Heap, k: int)
    requires WellFormed(h) && 0 <= k < |h.nodes|
  {
    var m := h.nodes[k].prev;
    InHeap(h, m) && m < k && h.nodes[m].next == k
  }

  ghost predicate LinkedEnds(h: Heap)
    requires WellFormed(h)
  {
    var n := |h.nodes|;
    2 <= n && InHeap(h, 0) && InHeap(h, n - 1) && h.nodes[0].prev == 0 && h.nodes[n - 1].next == n - 1
  }

  /** prev and next chain exactly the live points in increasing order, from end point to end point. */
  ghost predicate Linked(h: Heap)
    requires WellFormed(h)
  {
    && LinkedEnds(h)
    && (forall k {:trigger LinkedAfter(h, k)} :: InHeap(h, k) && k < |h.nodes| - 1 ==> LinkedAfter(h, k))
    && (forall k {:trigger LinkedBefore(h, k)} :: InHeap(h, k) && 0 < k ==> LinkedBefore(h, k))
  }

  /** The stored area of live interior point k is the area it has now. */
  ghost predicate AreaIsCurrent(tri: AreaFn, h: Heap, last: real, k: int)
    requires WellFormed(h) && 0 <= k < |h.nodes|
  {
    h.nodes[k].area == Max(tri(h.nodes[k].prev, k, h.nodes[k].next), last)
  }

  ghost predicate AreasAreCurrent(tri: AreaFn, h: Heap, last: real)
    requires WellFormed(h)
  {
    forall k {:trigger AreaIsCurrent(tri, h, last, k)} :: Interior(h, k) ==> AreaIsCurrent(tri, h, last, k)
  }

  /** The previous turn was one of the last avoidCollapse turns, which emit FLT_MAX. */
  predicate Forced(s: State, avoid: int) {
    0 < s.turn && s.turn - 1 >= |s.heap.nodes| - avoid
  }

  ghost predicate Emitted(s: State)
    requires WellFormed(s.heap)
  {
    && |s.res| == |s.heap.nodes|
    && forall k :: 0 <= k < |s.res| ==> if InHeap(s.heap, k) then s.res[k] == FLT_MAX else s.res[k] <= s.last
  }

  ghost predicate EndsAreMaximal(h: Heap)
    requires WellFormed(h)
  {
    0 < |h.nodes| && h.nodes[0].area == FLT_MAX && h.nodes[|h.nodes| - 1].area == FLT_MAX
  }

  /** What holds at the top of every turn. */
  ghost predicate Inv(tri: AreaFn, avoid: int, s: State) {
    var h := s.heap;
    var n := |h.nodes|;
    && 0 <= avoid <= 4 && 3 <= n && 0 <= s.turn
    && WellFormed(h) && h.used == n - s.turn && 2 <= h.used
    && BackIndexed(h) && Ordered(h) && Linked(h)
    && EndsAreMaximal(h) && AreasAreCurrent(tri, h, s.last) && Emitted(s)
    && 0.0 <= s.last <= FLT_MAX
    && (!Forced(s, avoid) ==> s.last < FLT_MAX)
    && (Forced(s, avoid) ==> s.last == FLT_MAX && h.used <= 3 && (h.used == 3 ==> 0 < h.keys[0] < n - 1))
  }

  // ----- one turn -----

  function SetAndUpdate(h: Heap, k: int, area: real): (r: Heap)
    requires WellFormed(h) && 0 <= k < |h.nodes| && 0 <= h.nodes[k].treeIndex < |h.keys|
    ensures WellFormed(r) && |r.keys| == |h.keys| && r.used == h.used
  {
    Update(SetArea(h, k, area), h.nodes[k].treeIndex)
  }

  function Relink(h: Heap, c: int, before: int, after: int): (r: Heap)
    requires WellFormed(h) && 0 <= c < |h.nodes| && 0 <= before < |h.nodes| && 0 <= after < |h.nodes|
    ensures WellFormed(r) && |r.keys| == |h.keys| && r.used == h.used
  {
    var n1 := h.nodes[before := h.nodes[before].(next := h.nodes[c].next)];
    h.(nodes := n1[after := n1[after].(prev := n1[c].prev)])
  }

  function RefreshBefore(tri: AreaFn, h: Heap, before: int, after: int, e: real): (r: Heap)
    requires WellFormed(h) && 0 <= before < |h.nodes| && 0 <= h.nodes[before].treeIndex < |h.keys|
    ensures WellFormed(r) && |r.keys| == |h.keys| && r.used == h.used
  {
    if before > 0 then SetAndUpdate(h, before, Max(tri(h.nodes[before].prev, before, after), e)) else h
  }

  function RefreshAfter(tri: AreaFn, h: Heap, before: int, after: int, e: real): (r: Heap)
    requires WellFormed(h) && 0 <= after < |h.nodes| && 0 <= h.nodes[after].treeIndex < |h.keys|
    ensures WellFormed(r) && |r.keys| == |h.keys| && r.used == h.used
  {
    if after < |h.nodes| - 1 then SetAndUpdate(h, after, Max(tri(before, after, h.nodes[after].next), e)) else h
  }

  /** The area emitted by a turn that takes out a point of the given stored area. */
  function EmittedArea(s: State, avoid: int, stored: real): real {
    if s.turn < |s.heap.nodes| - avoid then stored else FLT_MAX
  }

  /** A refresh of live point k gives it the area and keeps everything else. */
  ghost predicate Refreshed(h: Heap, r: Heap, k: int, area: real)
    requires WellFormed(h)
  {
    && WellFormed(r) && |r.keys| == |h.keys| && r.used == h.used && BackIndexed(r) && Ordered(r)
    && (forall m :: InHeap(r, m) <==> InHeap(h, m))
    && (forall m :: 0 <= m < |h.nodes| ==>
         r.nodes[m] == (if m == k then h.nodes[m].(area := area) else h.nodes[m]).(treeIndex := r.nodes[m].treeIndex))
  }

  lemma SetAndUpdateRefreshes(h: Heap, k: int, area: real)
    requires WellFormed(h) && BackIndexed(h) && Ordered(h) && InHeap(h, k)
    ensures Refreshed(h, SetAndUpdate(h, k, area), k, area)
  {
    SetAreaThenUpdate(h, k, area);
  }

  lemma SlotIsLive(h: Heap, j: int)
    requires WellFormed(h) && BackIndexed(h) && 0 <= j < h.used
    ensures InHeap(h, h.keys[j]) && h.nodes[h.keys[j]].treeIndex == j
  {
  }

  /** With three live points one of the first three slots names an interior point. */
  lemma SomeInterior(h: Heap) returns (j: int)
    requires WellFormed(h) && BackIndexed(h) && 3 <= h.used
    ensures 0 <= j < 3 && Interior(h, h.keys[j])
  {
    SlotIsLive(h, 0);
    SlotIsLive(h, 1);
    SlotIsLive(h, 2);
    var n := |h.nodes|;
    j := if 0 < h.keys[0] < n - 1 then 0 else if 0 < h.keys[1] < n - 1 then 1 else 2;
    assert h.keys[0] != h.keys[1] && h.keys[0] != h.keys[2] && h.keys[1] != h.keys[2];
  }

  /** The root is an interior point: neither end point is ever popped, the tie at FLT_MAX included. */
  lemma RootIsInterior(tri: AreaFn, avoid: int, s: State)
    requires Inv(tri, avoid, s) && 3 <= s.heap.used
    ensures Interior(s.heap, s.heap.keys[0])
    ensures s.last <= s.heap.nodes[s.heap.keys[0]].area <= FLT_MAX
    ensures !Forced(s, avoid) ==> s.heap.nodes[s.heap.keys[0]].area < FLT_MAX
  {
    var h := s.heap;
    SlotIsLive(h, 0);
    if !Forced(s, avoid) {
      var j := SomeInterior(h);
      assert AreaIsCurrent(tri, h, s.last, h.keys[j]);
      RootIsMinimum(h, j);
      assert AreaAt(h, 0) < FLT_MAX;
    }
    assert AreaIsCurrent(tri, h, s.last, h.keys[0]);
  }

  lemma NeighboursAreLive(tri: AreaFn, avoid: int, s: State)
    requires Inv(tri, avoid, s) && 3 <= s.heap.used
    ensures var h := s.heap; var c := h.keys[0]; var h1 := Pop(h);
            && 0 < c < |h.nodes| - 1
            && h1.nodes[c].prev == h.nodes[c].prev && h1.nodes[c].next == h.nodes[c].next
            && h1.nodes[c].area == h.nodes[c].area
            && InHeap(h1, h.nodes[c].prev) && InHeap(h1, h.nodes[c].next)
            && h.nodes[c].prev < c < h.nodes[c].next
            && BackIndexed(h1) && Ordered(h1)
  {
    RootIsInterior(tri, avoid, s);
    PopTakesMinimum(s.heap);
    var c := s.heap.keys[0];
    assert LinkedAfter(s.heap, c) && LinkedBefore(s.heap, c);
  }

  lemma RefreshBoth(tri: AreaFn, h1: Heap, before: int, after: int, e: real)
    requires WellFormed(h1) && BackIndexed(h1) && Ordered(h1) && InHeap(h1, before) && InHeap(h1, after)
    requires before < after
    ensures Refreshed(h1, RefreshBefore(tri, h1, before, after, e), before,
                      if before > 0 then Max(tri(h1.nodes[before].prev, before, after), e) else h1.nodes[before].area)
    ensures var h2 := RefreshBefore(tri, h1, before, after, e);
            InHeap(h2, after) &&
            Refreshed(h2, RefreshAfter(tri, h2, before, after, e), after,
                      if after < |h2.nodes| - 1 then Max(tri(before, after, h2.nodes[after].next), e)
                      else h2.nodes[after].area)
  {
    if before > 0 {
      SetAndUpdateRefreshes(h1, before, Max(tri(h1.nodes[before].prev, before, after), e));
    }
    var h2 := RefreshBefore(tri, h1, before, after, e);
    assert InHeap(h2, after);
    if after < |h2.nodes| - 1 {
      SetAndUpdateRefreshes(h2, after, Max(tri(before, after, h2.nodes[after].next), e));
    }
  }

  function Step(tri: AreaFn, avoid: int, s: State): State
    requires Inv(tri, avoid, s) && 3 <= s.heap.used
  {
    NeighboursAreLive(tri, avoid, s);
    var c := s.heap.keys[0];
    var h1 := Pop(s.heap);
    var e := EmittedArea(s, avoid, h1.nodes[c].area);
    var before := h1.nodes[c].prev;
    var after := h1.nodes[c].next;
    RefreshBoth(tri, h1, before, after, e);
    var h2 := RefreshBefore(tri, h1, before, after, e);
    var h3 := RefreshAfter(tri, h2, before, after, e);
    State(Relink(h3, c, before, after), s.res[c := e], s.turn + 1, e)
  }

  // ----- every turn keeps the invariant -----

  lemma RelinkKeepsHeap(h: Heap, c: int, before: int, after: int)
    requires WellFormed(h) && 0 <= c < |h.nodes| && 0 <= before < |h.nodes| && 0 <= after < |h.nodes| && before != after
    requires BackIndexed(h) && Ordered(h)
    ensures var r := Relink(h, c, before, after);
            BackIndexed(r) && Ordered(r) && (forall k :: InHeap(r, k) <==> InHeap(h, k))
  {
    var r := Relink(h, c, before, after);
    forall j | 0 <= j < r.used ensures OrderedAt(r, j) {
      assert OrderedAt(h, j);
    }
  }

  /** What one turn that takes out c and emits e does to the areas and links of the nodes. */
  ghost predicate TurnNodes(tri: AreaFn, nodes: seq<AreaNode>, nodes': seq<AreaNode>, c: int, e: real)
    requires 0 <= c < |nodes| == |nodes'| && 0 <= nodes[c].prev < |nodes| && 0 <= nodes[c].next < |nodes|
  {
    var n := |nodes|;
    var b := nodes[c].prev;
    var a := nodes[c].next;
    forall k :: 0 <= k < n ==>
      && nodes'[k].area == (if k == b && 0 < b then Max(tri(nodes[b].prev, b, a), e)
                            else if k == a && a < n - 1 then Max(tri(b, a, nodes[a].next), e)
                            else nodes[k].area)
      && nodes'[k].next == (if k == b then a else nodes[k].next)
      && nodes'[k].prev == (if k == a then b else nodes[k].prev)
  }

  /** The whole effect of one turn on the heap. */
  ghost predicate TurnEffect(tri: AreaFn, h: Heap, r: Heap, c: int, e: real)
    requires WellFormed(h) && 0 <= c < |h.nodes| && 0 <= h.nodes[c].prev < |h.nodes| && 0 <= h.nodes[c].next < |h.nodes|
  {
    && WellFormed(r) && |r.nodes| == |h.nodes| && r.used == h.used - 1 && BackIndexed(r) && Ordered(r)
    && (forall k :: InHeap(r, k) <==> InHeap(h, k) && k != c)
    && TurnNodes(tri, h.nodes, r.nodes, c, e)
  }

  lemma RefreshesThenRelink(tri: AreaFn, h1: Heap, c: int, e: real)
    requires WellFormed(h1) && BackIndexed(h1) && Ordered(h1) && 0 <= c < |h1.nodes|
    requires var b := h1.nodes[c].prev; var a := h1.nodes[c].next;
             InHeap(h1, b) && InHeap(h1, a) && b < c < a && !InHeap(h1, c)
    ensures var b := h1.nodes[c].prev; var a := h1.nodes[c].next;
            var h2 := RefreshBefore(tri, h1, b, a, e);
            InHeap(h2, a) && |h2.nodes| == |h1.nodes| &&
            var r := Relink(RefreshAfter(tri, h2, b, a, e), c, b, a);
            && WellFormed(r) && BackIndexed(r) && Ordered(r) && r.used == h1.used && |r.nodes| == |h1.nodes|
            && (forall k :: InHeap(r, k) <==> InHeap(h1, k))
            && TurnNodes(tri, h1.nodes, r.nodes, c, e)
  {
    var b := h1.nodes[c].prev;
    var a := h1.nodes[c].next;
    RefreshBoth(tri, h1, b, a, e);
    var h2 := RefreshBefore(tri, h1, b, a, e);
    var h3 := RefreshAfter(tri, h2, b, a, e);
    RelinkKeepsHeap(h3, c, b, a);
  }

  lemma StepEffect(tri: AreaFn, avoid: int, s: State)
    requires Inv(tri, avoid, s) && 3 <= s.heap.used
    ensures var c := s.heap.keys[0]; var t := Step(tri, avoid, s);
            && Interior(s.heap, c) && LinkedAfter(s.heap, c) && LinkedBefore(s.heap, c)
            && t.last == EmittedArea(s, avoid, s.heap.nodes[c].area)
            && t.res == s.res[c := t.last] && t.turn == s.turn + 1
            && TurnEffect(tri, s.heap, t.heap, c, t.last)
  {
    NeighboursAreLive(tri, avoid, s);
    PopTakesMinimum(s.heap);
    var h := s.heap;
    var c := h.keys[0];
    assert LinkedAfter(h, c) && LinkedBefore(h, c);
    var h1 := Pop(h);
    var e := EmittedArea(s, avoid, h1.nodes[c].area);
    RefreshesThenRelink(tri, h1, c, e);
    TurnNodesAfterPop(tri, h.nodes, h1.nodes, Step(tri, avoid, s).heap.nodes, c, e);
  }

  lemma TurnNodesAfterPop(tri: AreaFn, old0: seq<AreaNode>, old1: seq<AreaNode>, new1: seq<AreaNode>, c: int, e: real)
    requires |old0| == |old1| == |new1| && 0 <= c < |old0|
    requires forall k :: 0 <= k < |old0| ==> old1[k] == old0[k].(treeIndex := old1[k].treeIndex)
    requires 0 <= old0[c].prev < |old0| && 0 <= old0[c].next < |old0|
    requires TurnNodes(tri, old1, new1, c, e)
    ensures TurnNodes(tri, old0, new1, c, e)
  {
  }

  lemma TurnLinksAfter(tri: AreaFn, h: Heap, r: Heap, c: int, e: real, k: int)
    requires WellFormed(h) && Linked(h) && Interior(h, c) && LinkedAfter(h, c) && LinkedBefore(h, c)
    requires TurnEffect(tri, h, r, c, e) && InHeap(r, k) && k < |h.nodes| - 1
    ensures LinkedAfter(r, k)
  {
    assert LinkedAfter(h, k);
    if k == h.nodes[c].prev {
      assert h.nodes[k].next == c;
    } else {
      assert h.nodes[k].next != c;
    }
  }

  lemma TurnLinksBefore(tri: AreaFn, h: Heap, r: Heap, c: int, e: real, k: int)
    requires WellFormed(h) && Linked(h) && Interior(h, c) && LinkedAfter(h, c) && LinkedBefore(h, c)
    requires TurnEffect(tri, h, r, c, e) && InHeap(r, k) && 0 < k
    ensures LinkedBefore(r, k)
  {
    assert LinkedBefore(h, k);
    if k != h.nodes[c].next {
      assert h.nodes[k].prev != c;
    }
  }

  lemma TurnKeepsEnds(tri: AreaFn, h: Heap, r: Heap, c: int, e: real)
    requires WellFormed(h) && LinkedEnds(h) && Interior(h, c) && LinkedAfter(h, c) && LinkedBefore(h, c)
    requires TurnEffect(tri, h, r, c, e)
    ensures LinkedEnds(r)
  {
  }

  lemma TurnKeepsLinks(tri: AreaFn, h: Heap, r: Heap, c: int, e: real)
    requires WellFormed(h) && Linked(h) && Interior(h, c) && LinkedAfter(h, c) && LinkedBefore(h, c)
    requires TurnEffect(tri, h, r, c, e)
    ensures Linked(r)
  {
    TurnKeepsEnds(tri, h, r, c, e);
    forall k | InHeap(r, k) && k < |h.nodes| - 1 ensures LinkedAfter(r, k) {
      TurnLinksAfter(tri, h, r, c, e, k);
    }
    forall k | InHeap(r, k) && 0 < k ensures LinkedBefore(r, k) {
      TurnLinksBefore(tri, h, r, c, e, k);
    }
  }

  /** Only the two neighbours were recomputed, and yet every stored area is current. */
  lemma TurnKeepsAreas(tri: AreaFn, h: Heap, r: Heap, c: int, last: real, e: real)
    requires WellFormed(h) && Linked(h) && Interior(h, c) && LinkedAfter(h, c) && LinkedBefore(h, c)
    requires AreasAreCurrent(tri, h, last) && TurnEffect(tri, h, r, c, e) && last <= e
    requires forall k :: Interior(r, k) && k != h.nodes[c].prev && k != h.nodes[c].next ==> e <= h.nodes[k].area
    ensures AreasAreCurrent(tri, r, e)
  {
    forall k | Interior(r, k) ensures AreaIsCurrent(tri, r, e, k) {
      assert AreaIsCurrent(tri, h, last, k);
      assert LinkedAfter(h, k) && LinkedBefore(h, k);
    }
  }

  /** With at most four live points every interior one is next to the popped point. */
  lemma FewLiveAreNeighbours(h: Heap, c: int, k: int)
    requires WellFormed(h) && BackIndexed(h) && Linked(h) && h.used <= 4
    requires Interior(h, c) && LinkedAfter(h, c) && LinkedBefore(h, c) && Interior(h, k) && k != c
    ensures k == h.nodes[c].prev || k == h.nodes[c].next
  {
    assert LinkedAfter(h, h.nodes[c].prev);
    var m := if k < c then h.nodes[c].prev else h.nodes[c].next;
    if m != k {
      assert InHeap(h, m) && 0 < m < |h.nodes| - 1 && m != c;
      FiveLive(h, 0, |h.nodes| - 1, c, k, m);
    }
  }

  lemma FiveLive(h: Heap, p: int, q: int, r: int, s: int, t: int)
    requires WellFormed(h) && InHeap(h, p) && InHeap(h, q) && InHeap(h, r) && InHeap(h, s) && InHeap(h, t)
    requires p != q && p != r && p != s && p != t && q != r && q != s && q != t && r != s && r != t && s != t
    ensures 5 <= h.used
  {
    var a, b, c := h.nodes[p].treeIndex, h.nodes[q].treeIndex, h.nodes[r].treeIndex;
    var d, e := h.nodes[s].treeIndex, h.nodes[t].treeIndex;
    assert a != b && a != c && a != d && a != e && b != c && b != d && b != e && c != d && c != e && d != e;
  }

  lemma UpdateLeavesRoot(g: Heap)
    requires WellFormed(g) && g.used == 3 && AreaAt(g, 0) <= AreaAt(g, 1) && AreaAt(g, 0) <= AreaAt(g, 2)
    ensures Update(g, 0) == g
  {
  }

  /** Three live points left, the interior one at the root: raising it to FLT_MAX leaves it there. */
  lemma RaisedRootStays(h: Heap, k: int)
    requires WellFormed(h) && BackIndexed(h) && 0 < |h.nodes| && InHeap(h, 0) && InHeap(h, |h.nodes| - 1)
    requires h.used == 3 && EndsAreMaximal(h) && h.keys[0] == k && 0 < k < |h.nodes| - 1
    ensures InHeap(h, k) && SetAndUpdate(h, k, FLT_MAX) == SetArea(h, k, FLT_MAX)
  {
    SlotIsLive(h, 0);
    SlotIsLive(h, 1);
    SlotIsLive(h, 2);
    var g := SetArea(h, k, FLT_MAX);
    if Interior(h, h.keys[1]) || Interior(h, h.keys[2]) {
      var m := if Interior(h, h.keys[1]) then h.keys[1] else h.keys[2];
      FourLive(h, 0, |h.nodes| - 1, k, m);
    }
    UpdateLeavesRoot(g);
  }

  lemma FourLive(h: Heap, p: int, q: int, r: int, s: int)
    requires WellFormed(h) && InHeap(h, p) && InHeap(h, q) && InHeap(h, r) && InHeap(h, s)
    requires p != q && p != r && p != s && q != r && q != s && r != s
    ensures 4 <= h.used
  {
    var a, b, c, d := h.nodes[p].treeIndex, h.nodes[q].treeIndex, h.nodes[r].treeIndex, h.nodes[s].treeIndex;
    assert a != b && a != c && a != d && b != c && b != d && c != d;
  }

  lemma RefreshesLeaveRaisedRoot(tri: AreaFn, h1: Heap, b: int, a: int)
    requires WellFormed(h1) && BackIndexed(h1) && h1.used == 3 && EndsAreMaximal(h1)
    requires InHeap(h1, 0) && InHeap(h1, |h1.nodes| - 1) && InHeap(h1, b) && InHeap(h1, a) && b < a
    requires 0 < h1.keys[0] < |h1.nodes| - 1 && (h1.keys[0] == b || h1.keys[0] == a)
    ensures var h2 := RefreshBefore(tri, h1, b, a, FLT_MAX);
            InHeap(h2, a) && RefreshAfter(tri, h2, b, a, FLT_MAX).keys[0] == h1.keys[0]
  {
    var n := |h1.nodes|;
    var k := h1.keys[0];
    SlotIsLive(h1, 0);
    RaisedRootStays(h1, k);
    if k == b && a != n - 1 {
      FourLive(h1, 0, n - 1, k, a);
    } else if k == a && b != 0 {
      FourLive(h1, 0, n - 1, k, b);
    }
  }

  /** A least point of a heap with an interior point below FLT_MAX is interior. */
  lemma LeastIsInterior(h: Heap)
    requires WellFormed(h) && BackIndexed(h) && Ordered(h) && 3 <= h.used && EndsAreMaximal(h)
    requires forall k :: Interior(h, k) ==> h.nodes[k].area < FLT_MAX
    ensures Interior(h, h.keys[0])
  {
    var j := SomeInterior(h);
    RootIsMinimum(h, j);
    SlotIsLive(h, 0);
    assert AreaAt(h, 0) < FLT_MAX;
  }

  lemma InteriorBelowMax(tri: AreaFn, avoid: int, s: State, k: int)
    requires Inv(tri, avoid, s) && !Forced(s, avoid) && Interior(s.heap, k)
    ensures s.heap.nodes[k].area < FLT_MAX
  {
    assert AreaIsCurrent(tri, s.heap, s.last, k);
  }

  /** With four points left, the point that moves to the root is a neighbour of the one taken out. */
  lemma NextRootIsNeighbour(tri: AreaFn, avoid: int, s: State)
    requires Inv(tri, avoid, s) && s.heap.used == 4 && !Forced(s, avoid)
    ensures var h := s.heap; var c := h.keys[0]; var h1 := Pop(h);
            && 0 <= c < |h.nodes| && |h1.nodes| == |h.nodes| && WellFormed(h1) && h1.used == 3 && EndsAreMaximal(h1)
            && InHeap(h1, 0) && InHeap(h1, |h1.nodes| - 1) && 0 < h1.keys[0] < |h1.nodes| - 1
            && (h1.keys[0] == h.nodes[c].prev || h1.keys[0] == h.nodes[c].next)
  {
    hide Pop, Ordered, BackIndexed, AreasAreCurrent, Emitted;
    NeighboursAreLive(tri, avoid, s);
    var h := s.heap;
    var c := h.keys[0];
    var h1 := Pop(h);
    PopTakesMinimum(h);
    forall k | Interior(h1, k) ensures h1.nodes[k].area < FLT_MAX {
      InteriorBelowMax(tri, avoid, s, k);
    }
    LeastIsInterior(h1);
    assert LinkedAfter(h, c) && LinkedBefore(h, c);
    FewLiveAreNeighbours(h, c, h1.keys[0]);
  }

  /** When the first FLT_MAX is emitted with four points live, the one interior point left ties
      with the end points and is nevertheless the root. */
  lemma TieGoesToInterior(tri: AreaFn, avoid: int, s: State)
    requires Inv(tri, avoid, s) && s.heap.used == 4 && s.turn >= |s.heap.nodes| - avoid
    ensures 0 < Step(tri, avoid, s).heap.keys[0] < |s.heap.nodes| - 1
  {
    NeighboursAreLive(tri, avoid, s);
    NextRootIsNeighbour(tri, avoid, s);
    var c := s.heap.keys[0];
    hide Pop, Linked, Ordered, AreasAreCurrent, Emitted, RefreshBefore, RefreshAfter;
    RefreshesLeaveRaisedRoot(tri, Pop(s.heap), s.heap.nodes[c].prev, s.heap.nodes[c].next);
  }

  lemma TurnKeepsEmitted(tri: AreaFn, s: State, t: State, c: int, e: real)
    requires WellFormed(s.heap) && InHeap(s.heap, c) && 0 <= s.heap.nodes[c].prev < |s.heap.nodes|
    requires 0 <= s.heap.nodes[c].next < |s.heap.nodes|
    requires TurnEffect(tri, s.heap, t.heap, c, e) && Emitted(s)
    requires s.last <= e == t.last && t.res == s.res[c := e]
    ensures Emitted(t)
  {
  }

  /** A turn from s to t that takes out c, as StepEffect describes it. */
  ghost predicate TurnTo(tri: AreaFn, avoid: int, s: State, t: State, c: int) {
    && WellFormed(s.heap) && Interior(s.heap, c) && LinkedAfter(s.heap, c) && LinkedBefore(s.heap, c)
    && TurnEffect(tri, s.heap, t.heap, c, t.last)
    && t.last == EmittedArea(s, avoid, s.heap.nodes[c].area)
    && |s.res| == |s.heap.nodes| && t.res == s.res[c := t.last] && t.turn == s.turn + 1
  }

  lemma TurnKeepsAreasCurrent(tri: AreaFn, avoid: int, s: State, t: State, c: int)
    requires Inv(tri, avoid, s) && TurnTo(tri, avoid, s, t, c) && s.last <= t.last
    requires forall k :: InHeap(s.heap, k) ==> s.heap.nodes[c].area <= s.heap.nodes[k].area
    ensures AreasAreCurrent(tri, t.heap, t.last)
  {
    var h := s.heap;
    forall k | Interior(t.heap, k) && k != h.nodes[c].prev && k != h.nodes[c].next ensures t.last <= h.nodes[k].area {
      if s.turn >= |h.nodes| - avoid { FewLiveAreNeighbours(h, c, k); }
    }
    TurnKeepsAreas(tri, h, t.heap, c, s.last, t.last);
  }

  lemma TurnKeepsInv(tri: AreaFn, avoid: int, s: State, t: State, c: int)
    requires Inv(tri, avoid, s) && 3 <= s.heap.used && TurnTo(tri, avoid, s, t, c)
    requires s.last <= s.heap.nodes[c].area <= FLT_MAX
    requires !Forced(s, avoid) ==> s.heap.nodes[c].area < FLT_MAX
    requires forall k :: InHeap(s.heap, k) ==> s.heap.nodes[c].area <= s.heap.nodes[k].area
    requires s.heap.used == 4 && s.turn >= |s.heap.nodes| - avoid ==> 0 < t.heap.keys[0] < |s.heap.nodes| - 1
    ensures Inv(tri, avoid, t) && s.last <= t.last
  {
    TurnKeepsLinks(tri, s.heap, t.heap, c, t.last);
    TurnKeepsAreasCurrent(tri, avoid, s, t, c);
    TurnKeepsEmitted(tri, s, t, c, t.last);
  }

  /** One turn keeps the whole invariant and never emits less than the turn before. */
  lemma StepKeepsInv(tri: AreaFn, avoid: int, s: State)
    requires Inv(tri, avoid, s) && 3 <= s.heap.used
    ensures Inv(tri, avoid, Step(tri, avoid, s))
    ensures s.last <= Step(tri, avoid, s).last
  {
    RootIsInterior(tri, avoid, s);
    StepEffect(tri, avoid, s);
    if s.heap.used == 4 && s.turn >= |s.heap.nodes| - avoid {
      TieGoesToInterior(tri, avoid, s);
    }
    PopTakesMinimum(s.heap);
    TurnKeepsInv(tri, avoid, s, Step(tri, avoid, s), s.heap.keys[0]);
  }
}
