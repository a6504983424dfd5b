/** The geometry type of a node over its children, in circ_node_internal_new of
    liblwgeom/lwgeodetic_tree.c. Zero is no type. */
module CircTypes {
  import opened GeomTypes

  /** The type of a node over what has been collected so far and one more child. */
  function PromoteType(soFar: nat, next: nat): nat {
    if soFar == 0 then next
    else if !IsCollectionType(soFar) then
      if soFar != next then COLLECTIONTYPE else CollectionTypeOf(soFar)
    else if soFar != CollectionTypeOf(next) then COLLECTIONTYPE
    else soFar
  }

  function PromoteAll(types: seq<nat>): nat
    requires types != []
  {
    if |types| == 1 then types[0] else PromoteType(PromoteAll(types[..|types| - 1]), types[|types| - 1])
  }

  /** All children belong in a collection of type m: either the first one is such a collection, or the
      first two are of one type that it is made of. */
  ghost predicate Gathers(m: nat, types: seq<nat>)
    requires 2 <= |types|
  {
    && (if IsCollectionType(types[0]) then m == types[0] && CollectionTypeOf(types[1]) == m
        else m == CollectionTypeOf(types[0]) && types[1] == types[0])
    && forall k :: 2 <= k < |types| ==> CollectionTypeOf(types[k]) == m
  }

  /** t is the type over children of the given types, the first of which has one: its own when it is alone,
      that of a collection for all of them, or that of a collection of anything. */
  ghost predicate IsGathered(types: seq<nat>, t: nat)
    requires types != []
  {
    if |types| == 1 then t == types[0]
    else Gathers(t, types) || (t == COLLECTIONTYPE && forall m :: !Gathers(m, types))
  }

  /** t is the type of a node over children of the given types: no type if no child has one, and otherwise
      what the children from the first one with a type on are gathered in. */
  ghost predicate IsParentType(types: seq<nat>, t: nat) {
    && ((forall k :: 0 <= k < |types| ==> types[k] == 0) ==> t == 0)
    && forall p :: 0 <= p < |types| && types[p] != 0 && (forall k :: 0 <= k < p ==> types[k] == 0) ==>
         IsGathered(types[p..], t)
  }

  lemma {:induction false} GatheredSoFar(types: seq<nat>)
    requires types != [] && types[0] != 0
    ensures PromoteAll(types) != 0 && IsGathered(types, PromoteAll(types))
    ensures 2 <= |types| ==> IsCollectionType(PromoteAll(types))
  {
    var n := |types| - 1;
    if 0 < n {
      var front := types[..n];
      GatheredSoFar(front);
      if 1 < n {
        var t, next := PromoteAll(front), types[n];
        assert front[0] == types[0] && front[1] == types[1];
        GatherOneMore(front, types, t);
      } else {
        assert PromoteAll(types) == PromoteType(types[0], types[1]);
        GatherTwo(types);
      }
    }
  }

  lemma GatherTwo(types: seq<nat>)
    requires |types| == 2 && types[0] != 0
    ensures IsGathered(types, PromoteType(types[0], types[1])) && IsCollectionType(PromoteType(types[0], types[1]))
  {
    TypeNumbers(types[0]);
    TypeNumbers(types[1]);
  }

  lemma GatherOneMore(front: seq<nat>, types: seq<nat>, t: nat)
    requires 2 <= |front| && |types| == |front| + 1 && front == types[..|front|]
    requires IsGathered(front, t) && IsCollectionType(t)
    ensures var next := PromoteType(t, types[|front|]); IsGathered(types, next) && IsCollectionType(next)
  {
    var n := |front|;
    assert front[0] == types[0] && front[1] == types[1];
    assert forall k :: 0 <= k < n ==> front[k] == types[k];
    forall m ensures Gathers(m, types) <==> Gathers(m, front) && CollectionTypeOf(types[n]) == m {
    }
    TypeNumbers(t);
    OneGathering(front);
  }

  lemma OneGathering(types: seq<nat>)
    requires 2 <= |types|
    ensures forall m, n :: Gathers(m, types) && Gathers(n, types) ==> m == n
  {
  }

  lemma {:induction false} SkipZeros(types: seq<nat>, p: nat)
    requires p < |types| && forall k :: 0 <= k < p ==> types[k] == 0
    ensures PromoteAll(types) == PromoteAll(types[p..])
    decreases |types|
  {
    hide PromoteType;
    var n := |types| - 1;
    var u := types[p..];
    if p < n {
      SkipZeros(types[..n], p);
      assert types[..n][p..] == u[..n - p];
      LastPromoted(types);
      LastPromoted(u);
    } else {
      assert u == [types[n]];
      if 0 < n {
        NoTypes(types[..n]);
        LastPromoted(types);
        NothingSoFar(types[n]);
      }
    }
  }

  lemma LastPromoted(types: seq<nat>)
    requires 2 <= |types|
    ensures var n := |types| - 1; PromoteAll(types) == PromoteType(PromoteAll(types[..n]), types[n])
  {
    hide PromoteType;
  }

  lemma NothingSoFar(next: nat)
    ensures PromoteType(0, next) == next
  {
  }

  lemma {:induction false} NoTypes(types: seq<nat>)
    requires types != [] && forall k :: 0 <= k < |types| ==> types[k] == 0
    ensures PromoteAll(types) == 0
  {
    hide PromoteType;
    if 1 < |types| {
      NoTypes(types[..|types| - 1]);
      LastPromoted(types);
      NothingSoFar(0);
    }
  }

  lemma PromoteAllGathers(types: seq<nat>)
    requires types != []
    ensures IsParentType(types, PromoteAll(types))
  {
    if forall k :: 0 <= k < |types| ==> types[k] == 0 { NoTypes(types); }
    forall p | 0 <= p < |types| && types[p] != 0 && (forall k :: 0 <= k < p ==> types[k] == 0)
      ensures IsGathered(types[p..], PromoteAll(types))
    {
      SkipZeros(types, p);
      GatheredSoFar(types[p..]);
    }
  }

  // ----- in numbers -----

  /** Two or more children of one primitive type give the collection of that type; types in front that are
      missing do not matter. */
  lemma ParentOfSame(types: seq<nat>, p: nat, t: nat)
    requires p + 2 <= |types| && t in {1, 2, 3, 8, 14}
    requires (forall k :: 0 <= k < p ==> types[k] == 0) && forall k :: p <= k < |types| ==> types[k] == t
    ensures PromoteAll(types) ==
              if t == 1 then 4 else if t == 2 then 5 else if t == 3 then 6 else if t == 8 then 11 else 15
  {
    PromoteAllGathers(types);
    TypeNumbers(t);
    var u := types[p..];
    assert u[0] == t && u[1] == t;
    assert Gathers(CollectionTypeOf(t), u);
    assert IsGathered(u, PromoteAll(types));
    OneGathering(u);
  }

  /** Children of different primitive types give a collection of anything. */
  lemma ParentOfDifferent(types: seq<nat>, p: nat, k: nat)
    requires p < k < |types| && types[p] in {1, 2, 3, 14} && types[k] in {0, 1, 2, 3, 14} && types[k] != types[p]
    requires forall i :: 0 <= i < p ==> types[i] == 0
    ensures PromoteAll(types) == 7
  {
    PromoteAllGathers(types);
    TypeNumbers(types[p]);
    TypeNumbers(types[k]);
    var u := types[p..];
    assert u[k - p] == types[k] && u[0] == types[p];
    assert IsGathered(u, PromoteAll(types));
  }

  /** Two or more children, the first typed one not being the last, always give a collection. */
  lemma ParentIsCollection(types: seq<nat>, p: nat)
    requires p + 2 <= |types| && types[p] != 0 && forall i :: 0 <= i < p ==> types[i] == 0
    ensures PromoteAll(types) in {4, 5, 6, 7, 9, 10, 11, 12, 13, 15}
  {
    SkipZeros(types, p);
    GatheredSoFar(types[p..]);
    TypeNumbers(PromoteAll(types));
  }
}
