/** Which slots the sifts of liblwgeom/effectivearea.c go through: with equal areas the order of the heap
    leaves open what moves, and so which of two points is taken out first. */
module AreaHeapPaths {
  import opened AreaHeap

  /** s is the child of p with the least area, the left one of two equal ones. */
  ghost predicate LeastChild(h: Heap, p: int, s: int)
    requires WellFormed(h) && 0 <= p
  {
    && p < s < h.used && Parent(s) == p
    && forall j :: p < j < h.used && Parent(j) == p ==>
         AreaAt(h, s) <= AreaAt(h, j) && (AreaAt(h, s) == AreaAt(h, j) ==> s <= j)
  }

  ghost predicate NoChildBelow(h: Heap, p: int, x: real)
    requires WellFormed(h) && 0 <= p
  {
    forall j :: p < j < h.used && Parent(j) == p ==> x <= AreaAt(h, j)
  }

  ghost predicate Slots(h: Heap, path: seq<int>) {
    path != [] && forall i :: 0 <= i < |path| ==> 0 <= path[i] < h.used
  }

  /** The way of an area x that sinks from path[0]: always to the least child, as long as that is smaller. */
  ghost predicate SinksAlong(h: Heap, path: seq<int>, x: real)
    requires WellFormed(h) && Slots(h, path)
  {
    if |path| == 1 then NoChildBelow(h, path[0], x)
    else LeastChild(h, path[0], path[1]) && AreaAt(h, path[1]) < x && SinksAlong(h, path[1..], x)
  }

  /** The way of an area x that rises from path[0]: to the parent, as long as that is larger. */
  ghost predicate RisesAlong(h: Heap, path: seq<int>, x: real)
    requires WellFormed(h) && Slots(h, path)
  {
    if |path| == 1 then path[0] == 0 || AreaAt(h, Parent(path[0])) <= x
    else path[1] == Parent(path[0]) && x < AreaAt(h, path[1]) && RisesAlong(h, path[1..], x)
  }

  /** The key at the start of the path has moved to its end, the others one place towards the start. */
  ghost predicate MovedAlong(h: Heap, r: Heap, path: seq<int>)
    requires WellFormed(h) && Slots(h, path)
  {
    && |r.keys| == |h.keys| && r.keys[path[|path| - 1]] == h.keys[path[0]]
    && (forall i, j :: 0 <= i && j == i + 1 && j < |path| ==> r.keys[path[i]] == h.keys[path[j]])
    && forall j :: 0 <= j < |h.keys| && j !in path ==> r.keys[j] == h.keys[j]
  }

  /** The slot chosen by a sift down, ties included. */
  lemma SwapSlotIsLeastChild(h: Heap, p: int)
    requires WellFormed(h) && 0 <= p < |h.keys|
    ensures var s := SwapSlot(h, p);
            if s == p then NoChildBelow(h, p, AreaAt(h, p)) else LeastChild(h, p, s) && AreaAt(h, s) < AreaAt(h, p)
  {
    forall j | p < j < h.used && Parent(j) == p ensures j == 2 * p + 1 || j == 2 * p + 2 {
    }
  }

  /** A sift down moves the keys along one path. */
  lemma {:induction false} DownSinks(h: Heap, p: int) returns (path: seq<int>)
    requires WellFormed(h) && BackIndexed(h) && 0 <= p < h.used
    ensures Slots(h, path) && path[0] == p && forall i :: 0 < i < |path| ==> p < path[i]
    ensures SinksAlong(h, path, AreaAt(h, p)) && MovedAlong(h, Down(h, p), path)
    decreases |h.keys| - p
  {
    SwapSlotIsLeastChild(h, p);
    DownUnfolds(h, p);
    var s := SwapSlot(h, p);
    hide AreaAt, LeastChild, NoChildBelow, SwapSlot, BackIndexed, SwapSlots, SinksAlong, MovedAlong, Down;
    if s > p {
      SwapFacts(h, p, s);
      var rest := DownSinks(SwapSlots(h, p, s), s);
      path := [p] + rest;
      SinksFurther(h, p, s, rest);
    } else {
      path := [p];
      NothingMoves(h, p);
    }
  }

  lemma DownUnfolds(h: Heap, p: int)
    requires WellFormed(h) && 0 <= p < |h.keys|
    ensures var s := SwapSlot(h, p); Down(h, p) == if s > p then Down(SwapSlots(h, p, s), s) else h
  {
    hide SwapSlots, SwapSlot;
  }

  lemma NothingMoves(h: Heap, p: int)
    requires WellFormed(h) && 0 <= p < h.used
    ensures Slots(h, [p]) && MovedAlong(h, h, [p])
    ensures NoChildBelow(h, p, AreaAt(h, p)) ==> SinksAlong(h, [p], AreaAt(h, p))
    ensures AreaAt(h, Parent(p)) <= AreaAt(h, p) ==> RisesAlong(h, [p], AreaAt(h, p))
  {
    hide AreaAt;
  }

  lemma SinksFurther(h: Heap, p: int, s: int, rest: seq<int>)
    requires WellFormed(h) && 0 <= p < s < h.used && LeastChild(h, p, s) && AreaAt(h, s) < AreaAt(h, p)
    requires var g := SwapSlots(h, p, s);
             forall j :: 0 <= j < h.used ==> AreaAt(g, j) == AreaAt(h, if j == p then s else if j == s then p else j)
    requires Slots(SwapSlots(h, p, s), rest) && rest[0] == s && forall i :: 0 < i < |rest| ==> s < rest[i]
    requires SinksAlong(SwapSlots(h, p, s), rest, AreaAt(h, p))
    requires MovedAlong(SwapSlots(h, p, s), Down(SwapSlots(h, p, s), s), rest)
    ensures Slots(h, [p] + rest) && SinksAlong(h, [p] + rest, AreaAt(h, p))
    ensures MovedAlong(h, Down(SwapSlots(h, p, s), s), [p] + rest)
  {
    SwappedKeys(h, p, s);
    hide AreaAt, LeastChild, NoChildBelow, SwapSlots, MovedAlong, Down;
    var g := SwapSlots(h, p, s);
    assert ([p] + rest)[1..] == rest;
    SinksBelow(h, g, p, s, rest, AreaAt(h, p));
    MovedFurther(h, g, Down(g, s), p, s, rest);
  }

  /** Below s nothing has changed, so the way down is the same. */
  lemma {:induction false} SinksBelow(h: Heap, g: Heap, p: int, s: int, rest: seq<int>, x: real)
    requires WellFormed(h) && WellFormed(g) && g.used == h.used && 0 <= p < s < h.used
    requires forall j :: s < j < h.used ==> AreaAt(g, j) == AreaAt(h, j)
    requires Slots(g, rest) && Slots(h, rest) && SinksAlong(g, rest, x) && s <= rest[0]
    ensures SinksAlong(h, rest, x)
    decreases |rest|
  {
    hide AreaAt;
    if 1 < |rest| {
      SinksBelow(h, g, p, s, rest[1..], x);
    }
  }

  lemma MovedFurther(h: Heap, g: Heap, r: Heap, p: int, s: int, rest: seq<int>)
    requires WellFormed(h) && WellFormed(g) && g.used == h.used && 0 <= p < h.used && 0 <= s < h.used && p != s
    requires g.keys == h.keys[p := h.keys[s]][s := h.keys[p]]
    requires Slots(g, rest) && rest[0] == s && p !in rest && (forall i :: 0 < i < |rest| ==> rest[i] != s)
    requires MovedAlong(g, r, rest)
    ensures Slots(h, [p] + rest) && MovedAlong(h, r, [p] + rest)
  {
    var path := [p] + rest;
    forall i, j | 0 <= i && j == i + 1 && j < |path| ensures r.keys[path[i]] == h.keys[path[j]] {
      if 0 < i {
        assert path[i] == rest[i - 1] && path[j] == rest[i];
        assert rest[i] in rest;
      }
    }
    assert path[|path| - 1] == rest[|rest| - 1];
  }

  /** A sift up moves the keys along the path to the root as far as areas there are larger. */
  lemma {:induction false} UpRises(h: Heap, c: int) returns (path: seq<int>)
    requires WellFormed(h) && BackIndexed(h) && 0 <= c < h.used
    ensures Slots(h, path) && path[0] == c && forall i :: 0 < i < |path| ==> path[i] < c
    ensures RisesAlong(h, path, AreaAt(h, c)) && MovedAlong(h, Up(h, c), path)
    decreases c
  {
    hide AreaAt, SwapSlots, BackIndexed, RisesAlong, MovedAlong;
    var p := Parent(c);
    if AreaAt(h, c) < AreaAt(h, p) {
      SwapFacts(h, p, c);
      var rest := UpRises(SwapSlots(h, p, c), p);
      path := [c] + rest;
      RisesFurther(h, c, rest);
    } else {
      path := [c];
      NothingMoves(h, c);
    }
  }

  lemma RisesFurther(h: Heap, c: int, rest: seq<int>)
    requires WellFormed(h) && 0 < c < h.used && AreaAt(h, c) < AreaAt(h, Parent(c))
    requires var p, g := Parent(c), SwapSlots(h, Parent(c), c);
             && (forall j :: 0 <= j < h.used ==>
                   AreaAt(g, j) == AreaAt(h, if j == p then c else if j == c then p else j))
             && Slots(g, rest) && rest[0] == p && (forall i :: 0 < i < |rest| ==> rest[i] < p)
             && RisesAlong(g, rest, AreaAt(h, c)) && MovedAlong(g, Up(g, p), rest)
    ensures Slots(h, [c] + rest) && RisesAlong(h, [c] + rest, AreaAt(h, c))
    ensures MovedAlong(h, Up(SwapSlots(h, Parent(c), c), Parent(c)), [c] + rest)
  {
    var p := Parent(c);
    SwappedKeys(h, p, c);
    hide AreaAt, SwapSlots, MovedAlong;
    var g := SwapSlots(h, p, c);
    assert ([c] + rest)[1..] == rest;
    RisesAbove(h, g, p, rest, AreaAt(h, c));
    MovedFurther(h, g, Up(g, p), c, p, rest);
  }

  lemma SwapFacts(h: Heap, p: int, s: int)
    requires WellFormed(h) && BackIndexed(h) && 0 <= p < h.used && 0 <= s < h.used && p != s
    ensures var g := SwapSlots(h, p, s);
            && BackIndexed(g)
            && forall j :: 0 <= j < h.used ==> AreaAt(g, j) == AreaAt(h, if j == p then s else if j == s then p else j)
  {
    SwapRearranges(h, p, s);
  }

  lemma SwappedKeys(h: Heap, p: int, s: int)
    requires WellFormed(h) && 0 <= p < h.used && 0 <= s < h.used && p != s
    ensures SwapSlots(h, p, s).keys == h.keys[p := h.keys[s]][s := h.keys[p]] == h.keys[s := h.keys[p]][p := h.keys[s]]
  {
  }

  /** Above p nothing has changed, so the way up is the same. */
  lemma {:induction false} RisesAbove(h: Heap, g: Heap, p: int, rest: seq<int>, x: real)
    requires WellFormed(h) && WellFormed(g) && g.used == h.used && 0 <= p < h.used
    requires (forall j :: 0 <= j < p ==> AreaAt(g, j) == AreaAt(h, j)) && AreaAt(g, p) == x
    requires Slots(g, rest) && Slots(h, rest) && RisesAlong(g, rest, x) && 0 <= rest[0] <= p
    ensures RisesAlong(h, rest, x)
    decreases |rest|
  {
    hide AreaAt;
    if 1 < |rest| {
      assert rest[1] == Parent(rest[0]) <= rest[0];
      RisesAbove(h, g, p, rest[1..], x);
    }
  }
}
