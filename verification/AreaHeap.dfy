/** The binary min-heap of liblwgeom/effectivearea.c.
    A heap slot names a point by its index, a node records the slot that names it (treeIndex),
    and every swap has to keep the two in step. The functions say what each heap operation
    computes; MinHeap is the in-place code, proved to compute exactly those functions. */
module AreaHeap {

  datatype AreaNode = AreaNode(area: real, treeIndex: int, prev: int, next: int)

  /** A value of the node list together with the heap over it. */
  datatype Heap = Heap(nodes: seq<AreaNode>, keys: seq<int>, used: int)

  ghost predicate WellFormed(h: Heap) {
    && 0 <= h.used <= |h.keys|
    && |h.keys| == |h.nodes|
    && forall j :: 0 <= j < |h.keys| ==> 0 <= h.keys[j] < |h.nodes|
  }

  function AreaAt(h: Heap, slot: int): real
    requires WellFormed(h) && 0 <= slot < |h.keys|
  {
    h.nodes[h.keys[slot]].area
  }

  /** C division truncates, so the root is its own parent. */
  function Parent(slot: int): (p: int)
    requires 0 <= slot
    ensures 0 <= p <= slot && (0 < slot ==> p < slot)
  {
    if slot == 0 then 0 else (slot - 1) / 2
  }

  /** Point k is in the live part of the heap, found through its own back-index. */
  ghost predicate InHeap(h: Heap, k: int)
    requires WellFormed(h)
  {
    0 <= k < |h.nodes| && 0 <= h.nodes[k].treeIndex < h.used && h.keys[h.nodes[k].treeIndex] == k
  }

  ghost predicate BackIndexed(h: Heap)
    requires WellFormed(h)
  {
    forall j :: 0 <= j < h.used ==> h.nodes[h.keys[j]].treeIndex == j
  }

  /** Slot j holds no smaller area than its parent slot. */
  ghost predicate OrderedAt(h: Heap, j: int)
    requires WellFormed(h) && 0 <= j < h.used
  {
    AreaAt(h, Parent(j)) <= AreaAt(h, j)
  }

  ghost predicate Ordered(h: Heap)
    requires WellFormed(h)
  {
    forall j :: 0 <= j < h.used ==> OrderedAt(h, j)
  }

  /** Ordered except around slot c: the links to c from above and from below are free,
      but the children of c are no smaller than the parent of c. */
  ghost predicate OrderedAround(h: Heap, c: int)
    requires WellFormed(h) && 0 <= c
  {
    && (forall j :: 0 <= j < h.used && j != c && Parent(j) != c ==> OrderedAt(h, j))
    && (forall j :: 0 < j < h.used && Parent(j) == c ==> AreaAt(h, Parent(c)) <= AreaAt(h, j) || c == 0)
  }

  /** r holds the same points as h with the same areas and links; only slots moved. */
  ghost predicate Rearranged(h: Heap, r: Heap)
    requires WellFormed(h)
  {
    && WellFormed(r) && BackIndexed(r)
    && r.used == h.used && |r.keys| == |h.keys|
    && (forall k :: 0 <= k < |h.nodes| ==> r.nodes[k] == h.nodes[k].(treeIndex := r.nodes[k].treeIndex))
    && (forall k :: InHeap(r, k) <==> InHeap(h, k))
  }

  // ----- what the operations compute -----

  function SwapSlots(h: Heap, p: int, s: int): (r: Heap)
    requires WellFormed(h) && 0 <= p < |h.keys| && 0 <= s < |h.keys|
    ensures WellFormed(r) && r.used == h.used && |r.keys| == |h.keys|
  {
    var n1 := h.nodes[h.keys[s] := h.nodes[h.keys[s]].(treeIndex := p)];
    var n2 := n1[h.keys[p] := n1[h.keys[p]].(treeIndex := s)];
    Heap(n2, h.keys[p := h.keys[s]][s := h.keys[p]], h.used)
  }

  /** The slot that a sift down exchanges with p, or p itself when p may stay. */
  function SwapSlot(h: Heap, p: int): (s: int)
    requires WellFormed(h) && 0 <= p < |h.keys|
    ensures s == p || (p < s < h.used && Parent(s) == p)
  {
    var left := 2 * p + 1;
    var right := left + 1;
    if right < h.used && AreaAt(h, right) < AreaAt(h, p) && AreaAt(h, right) < AreaAt(h, left) then right
    else if left < h.used && AreaAt(h, p) > AreaAt(h, left) then left
    else p
  }

  function Down(h: Heap, p: int): (r: Heap)
    requires WellFormed(h) && 0 <= p < |h.keys|
    ensures WellFormed(r) && r.used == h.used && |r.keys| == |h.keys|
    decreases |h.keys| - p
  {
    var s := SwapSlot(h, p);
    if s > p then Down(SwapSlots(h, p, s), s) else h
  }

  function Up(h: Heap, c: int): (r: Heap)
    requires WellFormed(h) && 0 <= c < |h.keys|
    ensures WellFormed(r) && r.used == h.used && |r.keys| == |h.keys|
    decreases c
  {
    if AreaAt(h, c) < AreaAt(h, Parent(c)) then Up(SwapSlots(h, Parent(c), c), Parent(c)) else h
  }

  /** The last key moves to the root and sifts down; the old root is the result. */
  function Pop(h: Heap): (r: Heap)
    requires WellFormed(h) && 0 < h.used
    ensures WellFormed(r) && r.used == h.used - 1 && |r.keys| == |h.keys|
  {
    Down(LastToRoot(h), 0)
  }

  function Update(h: Heap, slot: int): (r: Heap)
    requires WellFormed(h) && 0 <= slot < |h.keys|
    ensures WellFormed(r) && r.used == h.used && |r.keys| == |h.keys|
  {
    if AreaAt(h, slot) < AreaAt(h, Parent(slot)) then Up(h, slot) else Down(h, slot)
  }

  function SetArea(h: Heap, k: int, area: real): (r: Heap)
    requires WellFormed(h) && 0 <= k < |h.nodes|
    ensures WellFormed(r) && r.used == h.used && |r.keys| == |h.keys|
  {
    h.(nodes := h.nodes[k := h.nodes[k].(area := area)])
  }

  // ----- every operation only moves slots -----

  lemma SwapRearranges(h: Heap, p: int, s: int)
    requires WellFormed(h) && BackIndexed(h)
    requires 0 <= p < h.used && 0 <= s < h.used && p != s
    ensures Rearranged(h, SwapSlots(h, p, s))
    ensures forall j :: 0 <= j < h.used ==>
      AreaAt(SwapSlots(h, p, s), j) == AreaAt(h, if j == p then s else if j == s then p else j)
  {
    var r := SwapSlots(h, p, s);
    assert h.keys[p] != h.keys[s] by {
      assert h.nodes[h.keys[p]].treeIndex == p && h.nodes[h.keys[s]].treeIndex == s;
    }
    forall j | 0 <= j < r.used ensures r.nodes[r.keys[j]].treeIndex == j {
      assert h.nodes[h.keys[j]].treeIndex == j;
    }
    forall k ensures InHeap(r, k) <==> InHeap(h, k) {
      if 0 <= k < |h.nodes| && k != h.keys[p] && k != h.keys[s] {
        assert r.nodes[k] == h.nodes[k];
        if 0 <= h.nodes[k].treeIndex < h.used {
          assert h.nodes[h.keys[p]].treeIndex == p && h.nodes[h.keys[s]].treeIndex == s;
        }
      }
    }
  }

  lemma RearrangedTrans(a: Heap, b: Heap, c: Heap)
    requires WellFormed(a) && Rearranged(a, b) && Rearranged(b, c)
    ensures Rearranged(a, c)
  {
  }

  lemma {:induction false} DownRearranges(h: Heap, p: int)
    requires WellFormed(h) && BackIndexed(h) && 0 <= p < |h.keys|
    ensures Rearranged(h, Down(h, p))
    decreases |h.keys| - p
  {
    var s := SwapSlot(h, p);
    if s > p {
      SwapRearranges(h, p, s);
      DownRearranges(SwapSlots(h, p, s), s);
      RearrangedTrans(h, SwapSlots(h, p, s), Down(h, p));
    }
  }

  lemma {:induction false} UpRearranges(h: Heap, c: int)
    requires WellFormed(h) && BackIndexed(h) && 0 <= c < h.used
    ensures Rearranged(h, Up(h, c))
    decreases c
  {
    if AreaAt(h, c) < AreaAt(h, Parent(c)) {
      SwapRearranges(h, Parent(c), c);
      UpRearranges(SwapSlots(h, Parent(c), c), Parent(c));
      RearrangedTrans(h, SwapSlots(h, Parent(c), c), Up(h, c));
    }
  }

  // ----- sifting restores the heap order -----

  /** The slot chosen by a sift down holds the least area among p and its children. */
  lemma SwapSlotIsSmallest(h: Heap, p: int)
    requires WellFormed(h) && 0 <= p < |h.keys|
    ensures forall j :: 0 < j < h.used && Parent(j) == p ==> AreaAt(h, SwapSlot(h, p)) <= AreaAt(h, j)
    ensures AreaAt(h, SwapSlot(h, p)) <= AreaAt(h, p)
  {
    forall j | 0 < j < h.used && Parent(j) == p ensures AreaAt(h, SwapSlot(h, p)) <= AreaAt(h, j) {
      assert j == 2 * p + 1 || j == 2 * p + 2;
    }
  }

  /** One exchange of a sift down moves the disorder from p to the chosen child. */
  lemma DownStepOrder(h: Heap, p: int)
    requires WellFormed(h) && BackIndexed(h) && 0 <= p < h.used
    requires OrderedAround(h, p)
    requires SwapSlot(h, p) > p
    ensures var s := SwapSlot(h, p); var r := SwapSlots(h, p, s);
            BackIndexed(r) && OrderedAround(r, s) && OrderedAt(r, s)
  {
    var s := SwapSlot(h, p);
    var r := SwapSlots(h, p, s);
    SwapRearranges(h, p, s);
    SwapSlotIsSmallest(h, p);
    forall j | 0 <= j < r.used && j != s && Parent(j) != s ensures OrderedAt(r, j) {
      if j == p {
        if p != 0 { assert Parent(p) < p; assert AreaAt(h, Parent(p)) <= AreaAt(h, s); }
      } else if j == 0 {
      } else if Parent(j) == p {
      } else {
        assert OrderedAt(h, j);
      }
    }
    forall j | 0 < j < r.used && Parent(j) == s ensures AreaAt(r, Parent(s)) <= AreaAt(r, j) {
      assert OrderedAt(h, j);
    }
  }

  lemma {:induction false} DownRestoresOrder(h: Heap, p: int)
    requires WellFormed(h) && BackIndexed(h) && 0 <= p < |h.keys|
    requires OrderedAround(h, p) && (p < h.used ==> OrderedAt(h, p))
    ensures Ordered(Down(h, p))
    decreases |h.keys| - p
  {
    var s := SwapSlot(h, p);
    if s > p {
      DownStepOrder(h, p);
      DownRestoresOrder(SwapSlots(h, p, s), s);
    } else {
      SwapSlotIsSmallest(h, p);
      forall j | 0 <= j < h.used ensures OrderedAt(h, j) {
      }
    }
  }

  /** An exchange with the parent moves the disorder up. */
  lemma UpStepOrder(h: Heap, c: int)
    requires WellFormed(h) && BackIndexed(h) && 0 <= c < h.used && AreaAt(h, c) < AreaAt(h, Parent(c))
    requires OrderedAround(h, c)
    requires forall j :: 0 < j < h.used && Parent(j) == c ==> OrderedAt(h, j)
    ensures var r, p := SwapSlots(h, Parent(c), c), Parent(c);
            && WellFormed(r) && OrderedAround(r, p)
            && forall j :: 0 < j < r.used && Parent(j) == p ==> OrderedAt(r, j)
  {
    var p := Parent(c);
    var r := SwapSlots(h, p, c);
    SwapRearranges(h, p, c);
    forall j | 0 <= j < r.used && j != p ensures OrderedAt(r, j) {
      if j != c { assert OrderedAt(h, j); }
    }
    forall j | 0 < j < r.used && Parent(j) == p ensures AreaAt(r, Parent(p)) <= AreaAt(r, j) || p == 0 {
      if p != 0 {
        assert OrderedAt(h, p);
        if j != c { assert OrderedAt(h, j); }
      }
    }
  }

  lemma {:induction false} UpRestoresOrder(h: Heap, c: int)
    requires WellFormed(h) && BackIndexed(h) && 0 <= c < h.used
    requires OrderedAround(h, c)
    requires forall j :: 0 < j < h.used && Parent(j) == c ==> OrderedAt(h, j)
    ensures Ordered(Up(h, c))
    decreases c
  {
    var p := Parent(c);
    if AreaAt(h, c) < AreaAt(h, p) {
      var r := SwapSlots(h, p, c);
      SwapRearranges(h, p, c);
      UpStepOrder(h, c);
      UpRestoresOrder(r, p);
    } else {
      forall j | 0 <= j < h.used ensures OrderedAt(h, j) {
      }
    }
  }

  /** After any change of the area in one slot, minheap_update restores the order. */
  lemma UpdateRestoresOrder(h: Heap, slot: int)
    requires WellFormed(h) && BackIndexed(h) && 0 <= slot < h.used
    requires OrderedAround(h, slot)
    ensures Ordered(Update(h, slot)) && Rearranged(h, Update(h, slot))
  {
    if AreaAt(h, slot) < AreaAt(h, Parent(slot)) {
      forall j | 0 < j < h.used && Parent(j) == slot ensures OrderedAt(h, j) {
      }
      UpRestoresOrder(h, slot);
      UpRearranges(h, slot);
    } else {
      DownRestoresOrder(h, slot);
      DownRearranges(h, slot);
    }
  }

  /** Giving point k a new area and updating its slot keeps a heap a heap of the same points. */
  lemma SetAreaThenUpdate(h: Heap, k: int, area: real)
    requires WellFormed(h) && BackIndexed(h) && Ordered(h) && InHeap(h, k)
    ensures var g := SetArea(h, k, area);
            BackIndexed(g) && Rearranged(g, Update(g, h.nodes[k].treeIndex)) &&
            Ordered(Update(g, h.nodes[k].treeIndex)) &&
            forall m :: InHeap(g, m) <==> InHeap(h, m)
  {
    var g := SetArea(h, k, area);
    var slot := h.nodes[k].treeIndex;
    forall j | 0 <= j < h.used && j != slot ensures AreaAt(g, j) == AreaAt(h, j) {
      assert h.nodes[h.keys[j]].treeIndex == j;
    }
    forall j | 0 <= j < g.used && j != slot && Parent(j) != slot ensures OrderedAt(g, j) {
      assert OrderedAt(h, j);
    }
    forall j | 0 < j < g.used && Parent(j) == slot ensures AreaAt(g, Parent(slot)) <= AreaAt(g, j) || slot == 0 {
      assert OrderedAt(h, j) && OrderedAt(h, slot);
    }
    assert BackIndexed(g) by {
      forall j | 0 <= j < g.used ensures g.nodes[g.keys[j]].treeIndex == j {
        assert h.nodes[h.keys[j]].treeIndex == j;
      }
    }
    UpdateRestoresOrder(g, slot);
  }

  lemma {:induction false} RootIsMinimum(h: Heap, j: int)
    requires WellFormed(h) && Ordered(h) && 0 <= j < h.used
    ensures AreaAt(h, 0) <= AreaAt(h, j)
    decreases j
  {
    if j > 0 {
      RootIsMinimum(h, Parent(j));
      assert OrderedAt(h, j);
    }
  }

  /** The heap with the last key at the root. */
  function LastToRoot(h: Heap): Heap
    requires WellFormed(h) && 0 < h.used
  {
    var last := h.keys[h.used - 1];
    Heap(h.nodes[last := h.nodes[last].(treeIndex := 0)], h.keys[0 := last], h.used - 1)
  }

  lemma LastToRootKeeps(h: Heap)
    requires WellFormed(h) && BackIndexed(h) && Ordered(h) && 0 < h.used
    ensures var g := LastToRoot(h);
            && WellFormed(g) && BackIndexed(g)
            && (forall k :: InHeap(g, k) <==> InHeap(h, k) && k != h.keys[0])
            && forall j :: 0 <= j < g.used && j != 0 && Parent(j) != 0 ==> OrderedAt(g, j)
  {
    var g := LastToRoot(h);
    var c, last := h.keys[0], h.keys[h.used - 1];
    assert h.nodes[c].treeIndex == 0 && h.nodes[last].treeIndex == h.used - 1;
    forall j | 0 <= j < g.used ensures g.nodes[g.keys[j]].treeIndex == j {
      assert h.nodes[h.keys[j]].treeIndex == j;
    }
    forall k ensures InHeap(g, k) <==> InHeap(h, k) && k != c {
      if InHeap(h, k) && k != c {
        if k != last { assert g.keys[g.nodes[k].treeIndex] == k; }
      }
    }
    forall j | 0 <= j < g.used && j != 0 && Parent(j) != 0 ensures OrderedAt(g, j) {
      assert OrderedAt(h, j);
    }
  }

  /** minheap_pop takes out a point of least area and leaves a heap of all the others,
      with every area and link as it was. */
  lemma PopTakesMinimum(h: Heap)
    requires WellFormed(h) && BackIndexed(h) && Ordered(h) && 0 < h.used
    ensures var c := h.keys[0]; var r := Pop(h);
            && InHeap(h, c) && !InHeap(r, c)
            && (forall k :: InHeap(h, k) ==> h.nodes[c].area <= h.nodes[k].area)
            && (forall k :: InHeap(r, k) <==> InHeap(h, k) && k != c)
            && BackIndexed(r) && Ordered(r)
            && (forall k :: 0 <= k < |h.nodes| ==> r.nodes[k] == h.nodes[k].(treeIndex := r.nodes[k].treeIndex))
  {
    var c := h.keys[0];
    assert InHeap(h, c) by { assert h.nodes[c].treeIndex == 0; }
    forall k | InHeap(h, k) ensures h.nodes[c].area <= h.nodes[k].area {
      RootIsMinimum(h, h.nodes[k].treeIndex);
    }
    LastToRootKeeps(h);
    DownRearranges(LastToRoot(h), 0);
    DownRestoresOrder(LastToRoot(h), 0);
  }

  // ----- the in-place code -----

  class MinHeap {
    const keys: array<int>
    var used: int

    ghost function Model(nodes: array<AreaNode>): Heap
      reads this, keys, nodes
    {
      Heap(nodes[..], keys[..], used)
    }

    constructor (npoints: nat)
      ensures fresh(keys) && keys.Length == npoints && used == 0
    {
      keys := new int[npoints];
      used := 0;
    }

    method SwapInPlace(nodes: array<AreaNode>, parent: int, swap: int)
      requires WellFormed(Model(nodes)) && 0 <= parent < keys.Length && 0 <= swap < keys.Length
      modifies keys, nodes
      ensures Model(nodes) == SwapSlots(old(Model(nodes)), parent, swap)
    {
      var tmp := keys[parent];
      keys[parent] := keys[swap];
      nodes[keys[parent]] := nodes[keys[parent]].(treeIndex := parent);
      keys[swap] := tmp;
      nodes[keys[swap]] := nodes[keys[swap]].(treeIndex := swap);
    }

    method SiftDown(nodes: array<AreaNode>, parent: int)
      requires WellFormed(Model(nodes)) && 0 <= parent < keys.Length
      modifies keys, nodes
      ensures Model(nodes) == Down(old(Model(nodes)), parent)
      decreases keys.Length - parent
    {
      var left := parent * 2 + 1;
      var right := left + 1;
      var swap := parent;
      var leftArea, rightArea := 0.0, 0.0;
      var parentArea := nodes[keys[parent]].area;
      if left < used {
        leftArea := nodes[keys[left]].area;
        if parentArea > leftArea { swap := left; }
      }
      if right < used {
        rightArea := nodes[keys[right]].area;
        if rightArea < parentArea && rightArea < leftArea { swap := right; }
      }
      assert swap == SwapSlot(Model(nodes), parent);
      if swap > parent {
        SwapInPlace(nodes, parent, swap);
        if swap < used { SiftDown(nodes, swap); }
      }
    }

    method SiftUp(nodes: array<AreaNode>, start: int)
      requires WellFormed(Model(nodes)) && 0 <= start < keys.Length
      modifies keys, nodes
      ensures Model(nodes) == Up(old(Model(nodes)), start)
    {
      var c := start;
      var parent := Parent(c);
      while nodes[keys[c]].area < nodes[keys[parent]].area
        invariant 0 <= c < keys.Length && parent == Parent(c)
        invariant WellFormed(Model(nodes))
        invariant Up(Model(nodes), c) == Up(old(Model(nodes)), start)
        decreases c
      {
        SwapInPlace(nodes, parent, c);
        c := parent;
        parent := Parent(c);
      }
    }

    method PopMin(nodes: array<AreaNode>) returns (res: int)
      requires WellFormed(Model(nodes)) && 0 < used
      modifies this, keys, nodes
      ensures res == old(keys[0]) && Model(nodes) == Pop(old(Model(nodes)))
    {
      res := keys[0];
      keys[0] := keys[used - 1];
      nodes[keys[0]] := nodes[keys[0]].(treeIndex := 0);
      used := used - 1;
      SiftDown(nodes, 0);
    }

    method UpdateAt(nodes: array<AreaNode>, idx: int)
      requires WellFormed(Model(nodes)) && 0 <= idx < keys.Length
      modifies keys, nodes
      ensures Model(nodes) == Update(old(Model(nodes)), idx)
    {
      var parent := Parent(idx);
      if nodes[keys[idx]].area < nodes[keys[parent]].area {
        SiftUp(nodes, idx);
      } else {
        SiftDown(nodes, idx);
      }
    }
  }
}
