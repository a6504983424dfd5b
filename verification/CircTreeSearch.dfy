/** The pruned parity count on circle trees of liblwgeom/lwgeodetic_tree.c, which must agree with a scan
    over all leaves. */
module CircTreeSearch {
  import opened CircGeometry
  import opened CircTree
  import opened CircTreeBuild

  // ----- the parity count -----

  /** A stab line crosses a leaf and the crossing is not rejected as a grazing. */
  predicate Accepted(g: Geometry, stab: Edge, l: Leaf) {
    var inter := g.crossing(stab, l.edge);
    inter.intersects && !(inter.touchesRight || inter.colinear)
  }

  /** The number of accepted crossings of all leaves, one by one. */
  function CrossCount(g: Geometry, stab: Edge, ls: seq<Leaf>): nat {
    if ls == [] then 0 else CrossCount(g, stab, ls[..|ls| - 1]) + (if Accepted(g, stab, ls[|ls| - 1]) then 1 else 0)
  }

  lemma {:induction false} CrossCountConcat(g: Geometry, stab: Edge, a: seq<Leaf>, b: seq<Leaf>)
    ensures CrossCount(g, stab, a + b) == CrossCount(g, stab, a) + CrossCount(g, stab, b)
  {
    if b == [] {
      assert a + b == a;
    } else {
      assert (a + b)[..|a + b| - 1] == a + b[..|b| - 1];
      CrossCountConcat(g, stab, a, b[..|b| - 1]);
    }
  }

  lemma WithoutOne(g: Geometry, stab: Edge, b: seq<Leaf>, i: int)
    requires 0 <= i < |b|
    ensures var rest := b[..i] + b[i + 1..];
            && multiset(rest) == multiset(b) - multiset{b[i]}
            && CrossCount(g, stab, b) == CrossCount(g, stab, rest) + CrossCount(g, stab, [b[i]])
  {
    assert b == b[..i] + ([b[i]] + b[i + 1..]);
    CrossCountConcat(g, stab, b[..i], b[i + 1..]);
    CrossCountConcat(g, stab, b[..i], [b[i]] + b[i + 1..]);
    CrossCountConcat(g, stab, [b[i]], b[i + 1..]);
    hide CrossCount;
  }

  /** The count does not depend on the order of the leaves. */
  lemma {:induction false} CrossCountOfBag(g: Geometry, stab: Edge, a: seq<Leaf>, b: seq<Leaf>)
    requires multiset(a) == multiset(b)
    ensures CrossCount(g, stab, a) == CrossCount(g, stab, b)
    decreases |a|
  {
    if a == [] {
      assert |multiset(b)| == 0;
    } else {
      var n := |a| - 1;
      assert a[n] in multiset(a);
      var i :| 0 <= i < |b| && b[i] == a[n];
      WithoutOne(g, stab, a, n);
      WithoutOne(g, stab, b, i);
      CrossCountOfBag(g, stab, a[..n] + a[n + 1..], b[..i] + b[i + 1..]);
    }
  }

  lemma {:induction false} NoCrossing(g: Geometry, stab: Edge, ls: seq<Leaf>)
    requires forall l :: l in ls ==> !Accepted(g, stab, l)
    ensures CrossCount(g, stab, ls) == 0
  {
    if ls != [] { NoCrossing(g, stab, ls[..|ls| - 1]); }
  }

  /** A stab line that stays outside the circle of a node crosses no leaf below the node. */
  lemma PrunedHasNoCrossing(g: Geometry, stab: Edge, n: CircNode)
    requires IsGeometry(g) && CoversLeaves(g, n) && g.stabDist(stab, n.circle.center) > n.circle.radius
    ensures CrossCount(g, stab, n.leaves) == 0
  {
    forall l | l in n.leaves ensures !Accepted(g, stab, l) {
      if g.crossing(stab, l.edge).intersects {
        CrossingPoint(g, stab, l.edge, n.circle.center);
        OnGoodLeaf(g, l, g.meet(stab, l.edge));
        CoversPoint(g, n.circle, l.circle, g.meet(stab, l.edge));
      }
    }
    NoCrossing(g, stab, n.leaves);
  }

  lemma ChildIn(S: set<CircNode>, n: CircNode, i: int)
    requires Closed(S) && n in S && 0 <= i < n.numNodes
    ensures n.numNodes <= n.nodes.Length && n.nodes[i] in S && n.nodes[i].height < n.height
  {
    assert NodeOk(n, S);
    assert n.Children()[i] == n.nodes[i];
  }

  lemma ChildrenHaveTheLeaves(g: Geometry, stab: Edge, S: set<CircNode>, n: CircNode)
    requires Closed(S) && n in S && 0 < n.numNodes
    ensures n.numNodes <= n.nodes.Length && CrossCount(g, stab, n.leaves) == CrossCount(g, stab, LeavesOf(n.Children()))
  {
    assert NodeOk(n, S);
    LeavesOfIsBag(n.Children());
    CrossCountOfBag(g, stab, n.leaves, LeavesOf(n.Children()));
  }

  /** The crossing number of a leaf. */
  method LeafCrosses(g: Geometry, stab: Edge, node: CircNode) returns (r: nat)
    requires node.leaves == [Leaf(node.circle, node.edge)]
    ensures r == CrossCount(g, stab, node.leaves) % 2
  {
    var inter := g.crossing(stab, node.edge);
    assert node.leaves[..0] == [];
    if inter.intersects {
      if inter.touchesRight || inter.colinear {
        return 0;
      } else {
        return 1;
      }
    }
    return 0;
  }

  /** circ_tree_contains_point: skipping subtrees and reducing modulo 2 at every level gives the
      parity of the flat count over all leaves. */
  method ContainsPoint(g: Geometry, node: CircNode, pt: Point, ptOutside: Point, ghost S: set<CircNode>)
    returns (r: nat)
    requires IsGeometry(g) && Closed(S) && Covering(g, S) && node in S
    ensures r == CrossCount(g, Edge(pt, ptOutside), node.leaves) % 2
    decreases node.height, 1
  {
    hide IsGeometry, CrossCount;
    var stab := Edge(pt, ptOutside);
    assert CoversLeaves(g, node) && NodeOk(node, S);
    var d := g.stabDist(stab, node.circle.center);
    if d - FP_TOLERANCE <= node.circle.radius {
      if node.IsLeaf() {
        r := LeafCrosses(g, stab, node);
      } else {
        r := ChildrenCross(g, node, pt, ptOutside, S);
      }
    } else {
      PrunedHasNoCrossing(g, stab, node);
      r := 0;
    }
  }

  /** The crossing numbers of all children of a node, added up. */
  method ChildrenCross(g: Geometry, node: CircNode, pt: Point, ptOutside: Point, ghost S: set<CircNode>)
    returns (r: nat)
    requires IsGeometry(g) && Closed(S) && Covering(g, S) && node in S && 0 < node.numNodes
    ensures r == CrossCount(g, Edge(pt, ptOutside), node.leaves) % 2
    decreases node.height, 0
  {
    hide IsGeometry, Covering, CrossCount, Closed, LeavesOf;
    ghost var stab := Edge(pt, ptOutside);
    var c := 0;
    ChildrenHaveTheLeaves(g, stab, S, node);
    NothingToCount(g, stab, node);
    for i := 0 to node.numNodes
      invariant c % 2 == CrossCount(g, stab, LeavesOf(node.nodes[..i])) % 2
    {
      ChildIn(S, node, i);
      var r' := ContainsPoint(g, node.nodes[i], pt, ptOutside, S);
      LeavesSnoc(node.nodes[..i], node.nodes[i]);
      assert node.nodes[..i + 1] == node.nodes[..i] + [node.nodes[i]];
      CrossCountConcat(g, stab, LeavesOf(node.nodes[..i]), node.nodes[i].leaves);
      c := c + r';
    }
    return c % 2;
  }

  lemma NothingToCount(g: Geometry, stab: Edge, n: CircNode)
    ensures n.nodes[..0] == [] && CrossCount(g, stab, LeavesOf(n.nodes[..0])) == 0
  {
  }
}
