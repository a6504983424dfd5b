/** The branch-and-bound distance search between two circle trees of liblwgeom/lwgeodetic_tree.c.
    It reorders the children of the nodes it visits in place and carries the best distance and
    the pruning bound in two variables; the result must be the distance of the closest leaves. */
module CircTreeDistance {
  import opened FloatRange
  import opened CircGeometry
  import opened CircTree
  import opened GeomTypes
  import opened CircTreeBuild
  import opened CircTreeSearch
  import opened CircTypes

  // ----- distances -----

  function LeafDistance(g: Geometry, l1: Leaf, l2: Leaf): real {
    var p := g.nearest(l1.edge, l2.edge);
    g.dist(p.0, p.1)
  }

  /** circ_node_min_distance. */
  function MinDistance(g: Geometry, c1: Circle, c2: Circle): real {
    var d := g.dist(c1.center, c2.center);
    if d < c1.radius + c2.radius then 0.0 else d - c1.radius - c2.radius
  }

  /** circ_node_max_distance. */
  function MaxDistance(g: Geometry, c1: Circle, c2: Circle): real {
    g.dist(c1.center, c2.center) + c1.radius + c2.radius
  }

  lemma LeafDistanceInRange(g: Geometry, l1: Leaf, l2: Leaf)
    requires IsGeometry(g)
    ensures 0.0 <= LeafDistance(g, l1, l2) < FLT_MAX
  {
    var p := g.nearest(l1.edge, l2.edge);
    Triangle(g, p.0, p.1, p.0);
    hide IsGeometry;
  }

  /** The circles of two nodes bound the distance of any two leaves below them. */
  lemma CirclesBoundLeaves(g: Geometry, n1: CircNode, n2: CircNode, l1: Leaf, l2: Leaf)
    requires IsGeometry(g) && CoversLeaves(g, n1) && CoversLeaves(g, n2) && l1 in n1.leaves && l2 in n2.leaves
    ensures MinDistance(g, n1.circle, n2.circle) <= LeafDistance(g, l1, l2) <= MaxDistance(g, n1.circle, n2.circle)
  {
    hide IsGeometry, GoodLeaf;
    var p := g.nearest(l1.edge, l2.edge);
    NearestOnEdges(g, l1.edge, l2.edge);
    OnGoodLeaf(g, l1, p.0);
    OnGoodLeaf(g, l2, p.1);
    CoversPoint(g, n1.circle, l1.circle, p.0);
    CoversPoint(g, n2.circle, l2.circle, p.1);
    var c1, c2 := n1.circle.center, n2.circle.center;
    Triangle(g, c1, p.0, c2);
    Triangle(g, p.0, p.1, c2);
    Triangle(g, c2, p.1, c2);
    Triangle(g, p.0, c1, p.1);
    Triangle(g, c1, c2, p.1);
  }

  // ----- what a visit of a pair of subtrees achieves -----

  /** The bound reached so far settles all pairs of leaves, except those the pruning bound rules out. */
  ghost predicate Settled(g: Geometry, threshold: real, min: real, max: real, a: seq<Leaf>, b: seq<Leaf>) {
    min < threshold || min == 0.0 ||
    forall l1, l2 :: l1 in a && l2 in b ==> min <= LeafDistance(g, l1, l2) || LeafDistance(g, l1, l2) > max
  }

  ghost predicate SomePairWithin(g: Geometry, max: real, a: seq<Leaf>, b: seq<Leaf>) {
    exists l1, l2 :: l1 in a && l2 in b && LeafDistance(g, l1, l2) <= max
  }

  ghost predicate SomePairAt(g: Geometry, min: real, a: seq<Leaf>, b: seq<Leaf>) {
    exists l1, l2 :: l1 in a && l2 in b && LeafDistance(g, l1, l2) == min
  }

  lemma SettledStays(g: Geometry, threshold: real, min: real, max: real, min': real, max': real, a: seq<Leaf>,
                     b: seq<Leaf>)
    requires Settled(g, threshold, min, max, a, b) && 0.0 <= min' <= min && max' <= max
    ensures Settled(g, threshold, min', max', a, b)
  {
  }

  /** A search that starts from FLT_MAX and settles all pairs has found a closest pair: a pruning
      bound below a pair comes from another pair, which settles it. */
  lemma SettledIsExact(g: Geometry, threshold: real, min: real, max: real, a: seq<Leaf>, b: seq<Leaf>, l1: Leaf,
                       l2: Leaf)
    requires IsGeometry(g) && Settled(g, threshold, min, max, a, b) && 0.0 <= min
    requires max == FLT_MAX || SomePairWithin(g, max, a, b)
    requires l1 in a && l2 in b
    ensures min < threshold || min <= LeafDistance(g, l1, l2)
  {
    LeafDistanceInRange(g, l1, l2);
    hide IsGeometry;
    if LeafDistance(g, l1, l2) > max {
      var k1, k2 :| k1 in a && k2 in b && LeafDistance(g, k1, k2) <= max;
      assert min < threshold || min == 0.0 || min <= LeafDistance(g, k1, k2);
    }
  }

  // ----- the short circuit for polygons -----

  /** a is a polygon, b is a primitive, and a vertex of b lies inside a by the parity count. */
  ghost predicate PolygonHit(g: Geometry, a: CircNode, b: CircNode)
    reads a, b
  {
    && a.geomType == POLYGONTYPE && b.geomType != 0 && !IsCollectionType(b.geomType)
    && exists l :: l in b.leaves && CrossCount(g, Edge(l.edge.p1, a.ptOutside), a.leaves) % 2 == 1
  }

  /** The leaf whose vertex circ_tree_get_point gives: first children all the way down. */
  ghost function FirstLeaf(n: CircNode, S: set<CircNode>): (l: Leaf)
    requires Closed(S) && n in S
    reads set m | m in S :: m.nodes
    ensures l in n.leaves
    decreases n.height
  {
    assert NodeOk(n, S);
    if n.IsLeaf() then n.leaves[0]
    else
      assert n.Children()[0] == n.nodes[0] && n.nodes[0] in n.Children();
      var l := FirstLeaf(n.nodes[0], S);
      LeafOfChild(S, n, 0, l);
      l
  }

  /** a is a polygon, b is a primitive, and the vertex of b that is tested lies inside a. */
  ghost predicate ContainsFirst(g: Geometry, a: CircNode, b: CircNode, S: set<CircNode>)
    requires Closed(S) && b in S
    reads a, b, set m | m in S :: m.nodes
  {
    && a.geomType == POLYGONTYPE && b.geomType != 0 && !IsCollectionType(b.geomType)
    && CrossCount(g, Edge(FirstLeaf(b, S).edge.p1, a.ptOutside), a.leaves) % 2 == 1
  }

  /** a is a polygon, b is a primitive, and all vertices of b lie inside a. */
  ghost predicate ContainsAll(g: Geometry, a: CircNode, b: CircNode)
    reads a, b
  {
    && a.geomType == POLYGONTYPE && b.geomType != 0 && !IsCollectionType(b.geomType)
    && forall l :: l in b.leaves ==> CrossCount(g, Edge(l.edge.p1, a.ptOutside), a.leaves) % 2 == 1
  }

  ghost predicate EitherContainsFirst(g: Geometry, n1: CircNode, n2: CircNode, S1: set<CircNode>, S2: set<CircNode>)
    requires Closed(S1) && Closed(S2) && n1 in S1 && n2 in S2
    reads n1, n2, (set m | m in S1 :: m.nodes), set m | m in S2 :: m.nodes
  {
    ContainsFirst(g, n1, n2, S2) || ContainsFirst(g, n2, n1, S1)
  }

  lemma ContainsAllThenFirst(g: Geometry, a: CircNode, b: CircNode, S: set<CircNode>)
    requires Closed(S) && b in S && ContainsAll(g, a, b)
    ensures ContainsFirst(g, a, b, S)
  {
    hide Closed, CrossCount;
    var l := FirstLeaf(b, S);
  }

  ghost predicate AnyHit(g: Geometry, S1: set<CircNode>, S2: set<CircNode>)
    reads S1, S2
  {
    exists a, b :: a in S1 && b in S2 && (PolygonHit(g, a, b) || PolygonHit(g, b, a))
  }

  /** The search descends into a collection that has no children and so looks at no pair. */
  predicate PassedOver(n1: CircNode, n2: CircNode)
    reads n1, n2
  {
    && !(n1.IsLeaf() && n2.IsLeaf())
    && if IsCollectionType(n1.geomType) then n1.IsLeaf() else IsCollectionType(n2.geomType) && n2.IsLeaf()
  }

  /** For a pair of nodes that are not both leaves: the descent goes into the first one. */
  predicate DescendsFirst(n1: CircNode, n2: CircNode)
    reads n1, n2
  {
    IsCollectionType(n1.geomType) || (!IsCollectionType(n2.geomType) && !n1.IsLeaf())
  }

  /** No pair that the descent from n1 and n2 can reach is passed over, whatever the order of the
      children and whatever is pruned. */
  ghost predicate Passable(n1: CircNode, n2: CircNode, S1: set<CircNode>, S2: set<CircNode>)
    reads S1, S2
    decreases n1.height + n2.height
  {
    && n1 in S1 && n2 in S2 && !PassedOver(n1, n2)
    && if n1.IsLeaf() && n2.IsLeaf() then true
       else if DescendsFirst(n1, n2) then forall c :: c in n1.kids && c.height < n1.height ==> Passable(c, n2, S1, S2)
       else forall c :: c in n2.kids && c.height < n2.height ==> Passable(n1, c, S1, S2)
  }

  ghost predicate FirstPassable(n1: CircNode, n2: CircNode, S1: set<CircNode>, S2: set<CircNode>)
    reads S1, S2
  {
    0 < n1.numNodes && forall c :: c in n1.kids && c.height < n1.height ==> Passable(c, n2, S1, S2)
  }

  ghost predicate SecondPassable(n1: CircNode, n2: CircNode, S1: set<CircNode>, S2: set<CircNode>)
    reads S1, S2
  {
    0 < n2.numNodes && forall c :: c in n2.kids && c.height < n2.height ==> Passable(n1, c, S1, S2)
  }

  lemma PassableHasKids(n1: CircNode, n2: CircNode, S1: set<CircNode>, S2: set<CircNode>)
    ensures FirstPassable(n1, n2, S1, S2) ==> 0 < n1.numNodes
    ensures SecondPassable(n1, n2, S1, S2) ==> 0 < n2.numNodes
  {
  }

  lemma PassableDescends(n1: CircNode, n2: CircNode, S1: set<CircNode>, S2: set<CircNode>)
    requires Passable(n1, n2, S1, S2) && !(n1.IsLeaf() && n2.IsLeaf())
    ensures if DescendsFirst(n1, n2) then FirstPassable(n1, n2, S1, S2) else SecondPassable(n1, n2, S1, S2)
  {
  }

  /** Every node of a collection type has children, as in trees of single lines, points and polygons. */
  ghost predicate NoChildlessCollection(S: set<CircNode>)
    reads S
  {
    forall n :: n in S && IsCollectionType(n.geomType) ==> 0 < n.numNodes
  }

  lemma {:induction false} NoChildlessPassable(n1: CircNode, n2: CircNode, S1: set<CircNode>, S2: set<CircNode>)
    requires n1 in S1 && n2 in S2 && Closed(S1) && Closed(S2) && NoChildlessCollection(S1) && NoChildlessCollection(S2)
    ensures Passable(n1, n2, S1, S2)
    decreases n1.height + n2.height
  {
    assert NodeOk(n1, S1) && NodeOk(n2, S2);
    if n1.IsLeaf() && n2.IsLeaf() {
    } else if DescendsFirst(n1, n2) {
      forall c | c in n1.kids && c.height < n1.height ensures Passable(c, n2, S1, S2) {
        NoChildlessPassable(c, n2, S1, S2);
      }
    } else {
      forall c | c in n2.kids && c.height < n2.height ensures Passable(n1, c, S1, S2) {
        NoChildlessPassable(n1, c, S1, S2);
      }
    }
  }

  lemma {:induction false} HasLeaf(S: set<CircNode>, n: CircNode)
    requires Closed(S) && n in S
    ensures n.leaves != []
    decreases n.height
  {
    assert NodeOk(n, S);
    if 0 < n.numNodes {
      var i := n.numNodes - 1;
      var c := n.nodes[i];
      ChildIn(S, n, i);
      HasLeaf(S, c);
      assert n.Children()[i] == c && c.leaves[0] in multiset(c.leaves);
      assert c.leaves[0] in LeafBag(n.Children());
    }
  }

  /** circ_tree_get_point: a vertex of the shape below the node. */
  method GetPoint(node: CircNode, ghost S: set<CircNode>) returns (pt: Point, ghost l: Leaf)
    requires Closed(S) && node in S
    ensures l == FirstLeaf(node, S) && l in node.leaves && pt == l.edge.p1
    decreases node.height
  {
    assert NodeOk(node, S);
    if node.IsLeaf() {
      pt := node.edge.p1;
      l := node.leaves[0];
    } else {
      ChildIn(S, node, 0);
      pt, l := GetPoint(node.nodes[0], S);
      LeafOfChild(S, node, 0, l);
    }
  }

  lemma LeafBagHas(ns: seq<CircNode>, i: int, l: Leaf)
    requires 0 <= i < |ns| && l in ns[i].leaves
    ensures l in LeafBag(ns)
  {
    if i < |ns| - 1 {
      LeafBagHas(ns[..|ns| - 1], i, l);
    } else {
      assert l in multiset(ns[i].leaves);
    }
  }

  lemma LeafOfChild(S: set<CircNode>, n: CircNode, i: int, l: Leaf)
    requires Closed(S) && n in S && 0 <= i < n.numNodes && n.numNodes <= n.nodes.Length && l in n.nodes[i].leaves
    ensures l in n.leaves
  {
    assert NodeOk(n, S);
    LeafBagHas(n.Children(), i, l);
    assert l in multiset(n.leaves);
  }

  lemma ChildOfLeaf(S: set<CircNode>, n: CircNode, l: Leaf) returns (i: int)
    requires Closed(S) && n in S && 0 < n.numNodes && l in n.leaves
    ensures n.numNodes <= n.nodes.Length && 0 <= i < n.numNodes && l in n.nodes[i].leaves
  {
    assert NodeOk(n, S);
    assert l in multiset(n.leaves);
    LeafBelongsToOne(n.Children(), l);
    i :| 0 <= i < |n.Children()| && l in n.Children()[i].leaves;
  }

  // ----- the order of the visits -----

  function InsertByDist(g: Geometry, target: Circle, n: CircNode, ns: seq<CircNode>): (r: seq<CircNode>)
    ensures |r| == |ns| + 1
  {
    if ns == [] || g.dist(n.circle.center, target.center) < g.dist(ns[0].circle.center, target.center) then [n] + ns
    else [ns[0]] + InsertByDist(g, target, n, ns[1..])
  }

  function SortByDist(g: Geometry, target: Circle, ns: seq<CircNode>): (r: seq<CircNode>)
    ensures |r| == |ns|
  {
    if ns == [] then [] else InsertByDist(g, target, ns[0], SortByDist(g, target, ns[1..]))
  }

  ghost predicate NearestFirst(g: Geometry, target: Circle, ns: seq<CircNode>) {
    forall i, j :: 0 <= i < j < |ns| ==>
      g.dist(ns[i].circle.center, target.center) <= g.dist(ns[j].circle.center, target.center)
  }

  lemma {:induction false} LeafBagCons(n: CircNode, ns: seq<CircNode>)
    ensures LeafBag([n] + ns) == multiset(n.leaves) + LeafBag(ns)
  {
    if ns == [] {
      assert [n] + ns == [n] && [n][..0] == [];
    } else {
      assert ([n] + ns)[..|ns|] == [n] + ns[..|ns| - 1];
      LeafBagCons(n, ns[..|ns| - 1]);
    }
  }

  lemma {:induction false} InsertKeepsBag(g: Geometry, target: Circle, n: CircNode, ns: seq<CircNode>)
    ensures var r := InsertByDist(g, target, n, ns);
            LeafBag(r) == multiset(n.leaves) + LeafBag(ns) && multiset(r) == multiset{n} + multiset(ns)
  {
    hide LeafBag;
    if ns == [] || g.dist(n.circle.center, target.center) < g.dist(ns[0].circle.center, target.center) {
      LeafBagCons(n, ns);
    } else {
      InsertKeepsBag(g, target, n, ns[1..]);
      LeafBagCons(ns[0], InsertByDist(g, target, n, ns[1..]));
      LeafBagCons(ns[0], ns[1..]);
      assert ns == [ns[0]] + ns[1..];
    }
  }

  ghost predicate FirstNearest(g: Geometry, target: Circle, n: CircNode, ns: seq<CircNode>) {
    forall c :: c in ns ==> g.dist(n.circle.center, target.center) <= g.dist(c.circle.center, target.center)
  }

  lemma NearestFirstCons(g: Geometry, target: Circle, n: CircNode, ns: seq<CircNode>)
    ensures NearestFirst(g, target, [n] + ns) <==> FirstNearest(g, target, n, ns) && NearestFirst(g, target, ns)
  {
    var all := [n] + ns;
    if NearestFirst(g, target, all) {
      forall c | c in ns ensures g.dist(n.circle.center, target.center) <= g.dist(c.circle.center, target.center) {
        var i :| 0 <= i < |ns| && ns[i] == c;
        assert all[0] == n && all[i + 1] == c;
        assert g.dist(all[0].circle.center, target.center) <= g.dist(all[i + 1].circle.center, target.center);
      }
      forall i, j | 0 <= i < j < |ns|
        ensures g.dist(ns[i].circle.center, target.center) <= g.dist(ns[j].circle.center, target.center)
      {
        assert all[i + 1] == ns[i] && all[j + 1] == ns[j];
      }
    }
  }

  lemma FirstNearestInsert(g: Geometry, target: Circle, x: CircNode, n: CircNode, ns: seq<CircNode>)
    requires FirstNearest(g, target, x, ns)
    requires g.dist(x.circle.center, target.center) <= g.dist(n.circle.center, target.center)
    ensures FirstNearest(g, target, x, InsertByDist(g, target, n, ns))
  {
    InsertKeepsBag(g, target, n, ns);
    var r := InsertByDist(g, target, n, ns);
    hide LeafBag, InsertByDist;
    forall c | c in r ensures g.dist(x.circle.center, target.center) <= g.dist(c.circle.center, target.center) {
      assert c in multiset(r);
    }
  }

  lemma {:induction false} InsertKeepsOrder(g: Geometry, target: Circle, n: CircNode, ns: seq<CircNode>)
    requires NearestFirst(g, target, ns)
    ensures NearestFirst(g, target, InsertByDist(g, target, n, ns))
  {
    hide NearestFirst, FirstNearest;
    if ns == [] || g.dist(n.circle.center, target.center) < g.dist(ns[0].circle.center, target.center) {
      NearestFirstCons(g, target, n, ns);
      BeforeFirst(g, target, n, ns);
    } else {
      assert ns == [ns[0]] + ns[1..];
      NearestFirstCons(g, target, ns[0], ns[1..]);
      InsertKeepsOrder(g, target, n, ns[1..]);
      FirstNearestInsert(g, target, ns[0], n, ns[1..]);
      NearestFirstCons(g, target, ns[0], InsertByDist(g, target, n, ns[1..]));
    }
  }

  lemma BeforeFirst(g: Geometry, target: Circle, n: CircNode, ns: seq<CircNode>)
    requires NearestFirst(g, target, ns)
    requires ns == [] || g.dist(n.circle.center, target.center) < g.dist(ns[0].circle.center, target.center)
    ensures FirstNearest(g, target, n, ns)
  {
  }

  lemma {:induction false} SortKeeps(g: Geometry, target: Circle, ns: seq<CircNode>)
    ensures var r := SortByDist(g, target, ns);
            LeafBag(r) == LeafBag(ns) && multiset(r) == multiset(ns) && NearestFirst(g, target, r)
  {
    if ns != [] {
      hide LeafBag, NearestFirst;
      SortKeeps(g, target, ns[1..]);
      InsertKeepsBag(g, target, ns[0], SortByDist(g, target, ns[1..]));
      InsertKeepsOrder(g, target, ns[0], SortByDist(g, target, ns[1..]));
      LeafBagCons(ns[0], ns[1..]);
      assert ns == [ns[0]] + ns[1..];
    }
  }

  /** circ_internal_nodes_sort: copies the children out, sorts them and copies them back. */
  method SortChildren(g: Geometry, nodes: array<CircNode>, numNodes: nat, target: CircNode)
    requires numNodes <= nodes.Length && numNodes <= CIRC_NODE_SIZE
    modifies nodes
    ensures NearestFirst(g, target.circle, nodes[..numNodes])
    ensures multiset(nodes[..numNodes]) == multiset(old(nodes[..numNodes]))
    ensures LeafBag(nodes[..numNodes]) == LeafBag(old(nodes[..numNodes]))
    ensures nodes[numNodes..] == old(nodes[numNodes..])
  {
    hide LeafBag, NearestFirst, SortByDist;
    SortKeeps(g, target.circle, nodes[..numNodes]);
    var sortNodes := SortByDist(g, target.circle, nodes[..numNodes]);
    for i := 0 to numNodes
      invariant nodes[..i] == sortNodes[..i] && nodes[numNodes..] == old(nodes[numNodes..])
    {
      nodes[i] := sortNodes[i];
    }
    assert nodes[..numNodes] == sortNodes;
  }

  /** The child arrays of the nodes of S up to a height. */
  ghost function Arrays(S: set<CircNode>, h: nat): set<object> {
    set n | n in S && n.height <= h :: n.nodes
  }

  ghost predicate Apart(S1: set<CircNode>, S2: set<CircNode>) {
    forall a, b :: a in S1 && b in S2 ==> a.nodes != b.nodes
  }

  /** Reordering the children of a node keeps its leaves and its children. */
  lemma ReorderedNodeOk(S: set<CircNode>, n: CircNode, before: seq<CircNode>)
    requires n.numNodes <= n.nodes.Length && n.numNodes <= CIRC_NODE_SIZE
    requires multiset(n.Children()) == multiset(before) && LeafBag(n.Children()) == LeafBag(before)
    requires n.IsLeaf() ==> n.leaves == [Leaf(n.circle, n.edge)]
    requires !n.IsLeaf() ==> multiset(n.leaves) == LeafBag(before)
    requires forall c :: c in before ==> c in S && c.height < n.height
    requires forall c :: c in before <==> c in n.kids
    ensures NodeOk(n, S)
  {
    hide LeafBag;
    forall c ensures c in n.Children() <==> c in before {
      assert c in n.Children() <==> c in multiset(n.Children());
      assert c in before <==> c in multiset(before);
    }
  }

  // ----- how the bounds move -----

  /** The bounds only go down; a new distance comes from a pair of leaves or from a polygon hit,
      a new pruning bound lies above the distance of some pair. */
  ghost predicate BoundsMoved(g: Geometry, min0: real, max0: real, min: real, max: real, a: seq<Leaf>, b: seq<Leaf>,
                              hit: bool) {
    && min <= min0 && max <= max0
    && (min == min0 || SomePairAt(g, min, a, b) || (min == 0.0 && hit))
    && (max == max0 || SomePairWithin(g, max, a, b))
  }

  lemma BoundsTrans(g: Geometry, min0: real, max0: real, min1: real, max1: real, min2: real, max2: real,
                      a: seq<Leaf>, b: seq<Leaf>, hit: bool)
    requires BoundsMoved(g, min0, max0, min1, max1, a, b, hit) && BoundsMoved(g, min1, max1, min2, max2, a, b, hit)
    ensures BoundsMoved(g, min0, max0, min2, max2, a, b, hit)
  {
  }

  lemma BoundsWider(g: Geometry, min0: real, max0: real, min: real, max: real, a: seq<Leaf>, b: seq<Leaf>,
                      a': seq<Leaf>, b': seq<Leaf>, hit: bool)
    requires BoundsMoved(g, min0, max0, min, max, a, b, hit)
    requires (forall l :: l in a ==> l in a') && (forall l :: l in b ==> l in b')
    ensures BoundsMoved(g, min0, max0, min, max, a', b', hit)
  {
  }

  lemma EarlySettled(g: Geometry, threshold: real, min: real, max: real, a: seq<Leaf>, b: seq<Leaf>)
    requires min < threshold || min == 0.0
    ensures Settled(g, threshold, min, max, a, b)
  {
  }

  lemma PrunedSettled(g: Geometry, threshold: real, n1: CircNode, n2: CircNode, min: real, max: real)
    requires IsGeometry(g) && CoversLeaves(g, n1) && CoversLeaves(g, n2) && MinDistance(g, n1.circle, n2.circle) > max
    ensures Settled(g, threshold, min, max, n1.leaves, n2.leaves)
  {
    forall l1, l2 | l1 in n1.leaves && l2 in n2.leaves ensures LeafDistance(g, l1, l2) > max {
      CirclesBoundLeaves(g, n1, n2, l1, l2);
    }
  }

  lemma NewMaxWithin(g: Geometry, n1: CircNode, n2: CircNode, S1: set<CircNode>, S2: set<CircNode>)
    requires IsGeometry(g) && CoversLeaves(g, n1) && CoversLeaves(g, n2)
    requires n1 in S1 && n2 in S2 && Closed(S1) && Closed(S2)
    ensures SomePairWithin(g, MaxDistance(g, n1.circle, n2.circle), n1.leaves, n2.leaves)
  {
    HasLeaf(S1, n1);
    HasLeaf(S2, n2);
    assert n1.leaves[0] in n1.leaves && n2.leaves[0] in n2.leaves;
    CirclesBoundLeaves(g, n1, n2, n1.leaves[0], n2.leaves[0]);
  }

  /** A pair of subtrees is settled when all pairs with a child of the first are. */
  lemma SettledByFirst(g: Geometry, threshold: real, min: real, max: real, S: set<CircNode>, n: CircNode, b: seq<Leaf>)
    requires Closed(S) && n in S && 0 < n.numNodes <= n.nodes.Length
    requires forall k :: 0 <= k < n.numNodes ==> Settled(g, threshold, min, max, n.nodes[k].leaves, b)
    ensures Settled(g, threshold, min, max, n.leaves, b)
  {
    forall l | l in n.leaves ensures exists k :: 0 <= k < n.numNodes && l in n.nodes[k].leaves {
      var k := ChildOfLeaf(S, n, l);
    }
  }

  lemma SettledBySecond(g: Geometry, threshold: real, min: real, max: real, S: set<CircNode>, n: CircNode, a: seq<Leaf>)
    requires Closed(S) && n in S && 0 < n.numNodes <= n.nodes.Length
    requires forall k :: 0 <= k < n.numNodes ==> Settled(g, threshold, min, max, a, n.nodes[k].leaves)
    ensures Settled(g, threshold, min, max, a, n.leaves)
  {
    forall l | l in n.leaves ensures exists k :: 0 <= k < n.numNodes && l in n.nodes[k].leaves {
      var k := ChildOfLeaf(S, n, l);
    }
  }

  /** Two trees that share no child array. */
  ghost predicate Trees(g: Geometry, n1: CircNode, n2: CircNode, S1: set<CircNode>, S2: set<CircNode>)
    reads set n | n in S1 :: n.nodes, set n | n in S2 :: n.nodes
  {
    && n1 in S1 && n2 in S2 && Closed(S1) && Closed(S2) && Apart(S1, S2)
    && IsGeometry(g) && Covering(g, S1) && Covering(g, S2)
  }

  lemma TreesFacts(g: Geometry, n1: CircNode, n2: CircNode, S1: set<CircNode>, S2: set<CircNode>)
    requires Trees(g, n1, n2, S1, S2)
    ensures n1 in S1 && n2 in S2 && Closed(S1) && Closed(S2) && IsGeometry(g) && CoversLeaves(g, n1)
    ensures CoversLeaves(g, n2)
    ensures n1.numNodes <= n1.nodes.Length && n2.numNodes <= n2.nodes.Length
  {
    assert NodeOk(n1, S1) && NodeOk(n2, S2);
  }

  lemma FirstChild(g: Geometry, n1: CircNode, n2: CircNode, S1: set<CircNode>, S2: set<CircNode>, i: int)
    requires Trees(g, n1, n2, S1, S2) && 0 <= i < n1.numNodes
    ensures n1.numNodes <= n1.nodes.Length && Trees(g, n1.nodes[i], n2, S1, S2) && n1.nodes[i].height < n1.height
    ensures forall l :: l in n1.nodes[i].leaves ==> l in n1.leaves
  {
    ChildIn(S1, n1, i);
    forall l | l in n1.nodes[i].leaves ensures l in n1.leaves {
      LeafOfChild(S1, n1, i, l);
    }
  }

  lemma SecondChild(g: Geometry, n1: CircNode, n2: CircNode, S1: set<CircNode>, S2: set<CircNode>, i: int)
    requires Trees(g, n1, n2, S1, S2) && 0 <= i < n2.numNodes
    ensures n2.numNodes <= n2.nodes.Length && Trees(g, n1, n2.nodes[i], S1, S2) && n2.nodes[i].height < n2.height
    ensures forall l :: l in n2.nodes[i].leaves ==> l in n2.leaves
  {
    ChildIn(S2, n2, i);
    forall l | l in n2.nodes[i].leaves ensures l in n2.leaves {
      LeafOfChild(S2, n2, i, l);
    }
  }

  lemma ChildIsKid(S: set<CircNode>, n: CircNode, i: int)
    requires Closed(S) && n in S && 0 <= i < n.numNodes <= n.nodes.Length
    ensures n.nodes[i] in n.kids
  {
    assert NodeOk(n, S);
    assert n.Children()[i] == n.nodes[i];
  }

  /** The array of a node is not among those of smaller nodes of its tree or of the other tree. */
  lemma ArrayIsOwn(g: Geometry, n1: CircNode, n2: CircNode, S1: set<CircNode>, S2: set<CircNode>, h1: nat, h2: nat)
    requires Trees(g, n1, n2, S1, S2)
    ensures h1 < n1.height ==> n1.nodes !in Arrays(S1, h1)
    ensures n1.nodes !in Arrays(S2, h2)
    ensures h2 < n2.height ==> n2.nodes !in Arrays(S2, h2)
    ensures n2.nodes !in Arrays(S1, h1)
  {
  }

  predicate OnlySecondIsPoint(e1: Edge, e2: Edge) {
    e2.p1 == e2.p2 && e1.p1 != e1.p2
  }

  class DistanceSearch {
    const g: Geometry
    const threshold: real
    var minDist: real
    var maxDist: real
    var closest1: Point
    var closest2: Point

    constructor (g: Geometry, threshold: real)
      ensures this.g == g && this.threshold == threshold && minDist == FLT_MAX && maxDist == FLT_MAX
    {
      this.g := g;
      this.threshold := threshold;
      minDist := FLT_MAX;
      maxDist := FLT_MAX;
      closest1, closest2 := Point(0.0, 0.0), Point(0.0, 0.0);
    }

    ghost predicate Valid()
      reads this
    {
      0.0 <= minDist <= FLT_MAX && (minDist == FLT_MAX || minDist == g.dist(closest1, closest2))
    }

    /** circ_tree_distance_tree_internal. */
    method Visit(n1: CircNode, n2: CircNode, ghost S1: set<CircNode>, ghost S2: set<CircNode>) returns (d: real)
      requires Trees(g, n1, n2, S1, S2) && Valid()
      modifies this`minDist, this`maxDist, this`closest1, this`closest2, Arrays(S1, n1.height), Arrays(S2, n2.height)
      ensures Trees(g, n1, n2, S1, S2) && Valid()
      ensures BoundsMoved(g, old(minDist), old(maxDist), minDist, maxDist, n1.leaves, n2.leaves, AnyHit(g, S1, S2))
      ensures Passable(n1, n2, S1, S2) ==> Settled(g, threshold, minDist, maxDist, n1.leaves, n2.leaves)
      ensures PassedOver(n1, n2) ==> minDist == old(minDist)
      ensures minDist <= d
      ensures threshold <= old(minDist) && MinDistance(g, n1.circle, n2.circle) <= old(maxDist)
                && old(EitherContainsFirst(g, n1, n2, S1, S2)) ==>
                minDist == 0.0
      decreases n1.height + n2.height, 1, 0
    {
      hide Trees, IsGeometry, Closed, CoversLeaves, Settled, AnyHit;
      hide MaxDistance, MinDistance, SomePairAt, SomePairWithin;
      hide Passable, FirstPassable, SecondPassable;
      TreesFacts(g, n1, n2, S1, S2);
      if minDist < threshold || minDist == 0.0 {
        EarlySettled(g, threshold, minDist, maxDist, n1.leaves, n2.leaves);
        return minDist;
      }
      if MinDistance(g, n1.circle, n2.circle) > maxDist {
        PrunedSettled(g, threshold, n1, n2, minDist, maxDist);
        return FLT_MAX;
      }
      var max := MaxDistance(g, n1.circle, n2.circle);
      NewMaxWithin(g, n1, n2, S1, S2);
      if max < maxDist {
        maxDist := max;
      }
      var hit := PolygonShortCircuit(n1, n2, S1, S2);
      if hit {
        EarlySettled(g, threshold, minDist, maxDist, n1.leaves, n2.leaves);
        return minDist;
      }
      ghost var min1, max1 := minDist, maxDist;
      if n1.IsLeaf() && n2.IsLeaf() {
        d := VisitLeaves(n1, n2, S1, S2);
      } else {
        d := Descend(n1, n2, S1, S2);
      }
      BoundsTrans(g, old(minDist), old(maxDist), min1, max1, minDist, maxDist, n1.leaves, n2.leaves, AnyHit(g, S1, S2));
    }

    /** Not both nodes are leaves: the recursion, into collections first. */
    method Descend(n1: CircNode, n2: CircNode, ghost S1: set<CircNode>, ghost S2: set<CircNode>) returns (d: real)
      requires Trees(g, n1, n2, S1, S2) && Valid() && !(n1.IsLeaf() && n2.IsLeaf())
      modifies this`minDist, this`maxDist, this`closest1, this`closest2, Arrays(S1, n1.height), Arrays(S2, n2.height)
      ensures Trees(g, n1, n2, S1, S2) && Valid()
      ensures BoundsMoved(g, old(minDist), old(maxDist), minDist, maxDist, n1.leaves, n2.leaves, AnyHit(g, S1, S2))
      ensures Passable(n1, n2, S1, S2) ==> Settled(g, threshold, minDist, maxDist, n1.leaves, n2.leaves)
      ensures PassedOver(n1, n2) ==> minDist == old(minDist)
      ensures minDist <= d
      decreases n1.height + n2.height, 0, 2
    {
      hide Trees, Settled, AnyHit, Passable, FirstPassable, SecondPassable, BoundsMoved;
      ghost var passable := Passable(n1, n2, S1, S2);
      if passable {
        PassableDescends(n1, n2, S1, S2);
      }
      if IsCollectionType(n1.geomType) {
        d := VisitFirst(n1, n2, S1, S2);
      } else if IsCollectionType(n2.geomType) {
        d := VisitSecond(n1, n2, S1, S2);
      } else if !n1.IsLeaf() {
        d := VisitFirst(n1, n2, S1, S2);
      } else {
        d := VisitSecond(n1, n2, S1, S2);
      }
    }

    /** A polygon on one side and a primitive on the other: tests a vertex for containment. */
    method PolygonShortCircuit(n1: CircNode, n2: CircNode, ghost S1: set<CircNode>, ghost S2: set<CircNode>)
      returns (hit: bool)
      requires Trees(g, n1, n2, S1, S2) && Valid()
      modifies this`minDist, this`closest1, this`closest2
      ensures Valid() && (hit ==> minDist == 0.0 && AnyHit(g, S1, S2) && !PassedOver(n1, n2))
      ensures hit <==> EitherContainsFirst(g, n1, n2, S1, S2)
      ensures !hit ==> minDist == old(minDist) && closest1 == old(closest1) && closest2 == old(closest2)
    {
      hit := PolygonContains(n1, n2, S1, S2);
      if hit { return; }
      hit := PolygonContains(n2, n1, S2, S1);
    }

    /** A polygon a and a primitive b: the test of a vertex of b for containment in a. */
    method PolygonContains(a: CircNode, b: CircNode, ghost Sa: set<CircNode>, ghost Sb: set<CircNode>)
      returns (hit: bool)
      requires a in Sa && b in Sb && Closed(Sa) && Closed(Sb) && IsGeometry(g) && Covering(g, Sa) && Valid()
      modifies this`minDist, this`closest1, this`closest2
      ensures Valid() && (hit ==> minDist == 0.0 && AnyHit(g, Sa, Sb) && AnyHit(g, Sb, Sa))
      ensures hit ==> a.geomType == POLYGONTYPE && !IsCollectionType(b.geomType)
      ensures hit <==> ContainsFirst(g, a, b, Sb)
      ensures hit ==> closest1 == closest2 == FirstLeaf(b, Sb).edge.p1
      ensures !hit ==> minDist == old(minDist) && closest1 == old(closest1) && closest2 == old(closest2)
    {
      hide IsGeometry, Closed, Covering, CrossCount;
      hit := false;
      if a.geomType == POLYGONTYPE && b.geomType != 0 && !IsCollectionType(b.geomType) {
        var pt, l := GetPoint(b, Sb);
        var inside := ContainsPoint(g, a, pt, a.ptOutside, Sa);
        if inside != 0 {
          assert PolygonHit(g, a, b);
          minDist, closest1, closest2 := 0.0, pt, pt;
          Triangle(g, pt, pt, pt);
          hit := true;
        }
      }
    }

    /** Both nodes are leaves: the real distance. With a point on the second side only, the closest
        points come out exchanged. */
    method VisitLeaves(n1: CircNode, n2: CircNode, ghost S1: set<CircNode>, ghost S2: set<CircNode>) returns (d: real)
      requires Trees(g, n1, n2, S1, S2) && Valid() && n1.IsLeaf() && n2.IsLeaf()
      modifies this`minDist, this`closest1, this`closest2
      ensures Valid()
      ensures BoundsMoved(g, old(minDist), old(maxDist), minDist, maxDist, n1.leaves, n2.leaves, AnyHit(g, S1, S2))
      ensures Settled(g, threshold, minDist, maxDist, n1.leaves, n2.leaves) && minDist <= d
      ensures d == LeafDistance(g, n1.leaves[0], n2.leaves[0])
      ensures minDist < old(minDist) ==>
                var near := g.nearest(n1.edge, n2.edge);
                if OnlySecondIsPoint(n1.edge, n2.edge) then closest1 == near.1 && closest2 == near.0
                else closest1 == near.0 && closest2 == near.1
    {
      hide IsGeometry, Covering, AnyHit;
      assert NodeOk(n1, S1) && NodeOk(n2, S2);
      ghost var l1, l2 := Leaf(n1.circle, n1.edge), Leaf(n2.circle, n2.edge);
      assert n1.leaves == [l1] && n2.leaves == [l2];
      var near := g.nearest(n1.edge, n2.edge);
      var close1, close2 := near.0, near.1;
      d := g.dist(close1, close2);
      LeafDistanceInRange(g, l1, l2);
      Triangle(g, close1, close2, close1);
      if OnlySecondIsPoint(n1.edge, n2.edge) {
        close1, close2 := near.1, near.0;
      }
      if d < minDist {
        minDist := d;
        closest1, closest2 := close1, close2;
      }
      assert l1 in n1.leaves && l2 in n2.leaves && minDist <= LeafDistance(g, l1, l2);
    }

    /** Sorts the children of the first node and visits them with the second node. A node without
        children is passed over. */
    method VisitFirst(n1: CircNode, n2: CircNode, ghost S1: set<CircNode>, ghost S2: set<CircNode>) returns (d: real)
      requires Trees(g, n1, n2, S1, S2) && Valid()
      modifies this`minDist, this`maxDist, this`closest1, this`closest2, Arrays(S1, n1.height), Arrays(S2, n2.height)
      ensures Trees(g, n1, n2, S1, S2) && Valid()
      ensures BoundsMoved(g, old(minDist), old(maxDist), minDist, maxDist, n1.leaves, n2.leaves, AnyHit(g, S1, S2))
      ensures FirstPassable(n1, n2, S1, S2) ==> Settled(g, threshold, minDist, maxDist, n1.leaves, n2.leaves)
      ensures n1.numNodes == 0 ==> minDist == old(minDist)
      ensures minDist <= d
      decreases n1.height + n2.height, 0, 1
    {
      hide Trees, IsGeometry, Closed, CoversLeaves, Settled, AnyHit, SomePairAt, SomePairWithin, BoundsMoved;
      hide Passable, FirstPassable, SecondPassable;
      d := FLT_MAX;
      TreesFacts(g, n1, n2, S1, S2);
      SortFirst(n1, n2, S1, S2);
      ghost var hit, sound := AnyHit(g, S1, S2), FirstPassable(n1, n2, S1, S2);
      BoundsAtRest(g, minDist, maxDist, n1.leaves, n2.leaves, hit);
      for i := 0 to n1.numNodes
        invariant Trees(g, n1, n2, S1, S2) && Valid() && hit == AnyHit(g, S1, S2)
        invariant sound == FirstPassable(n1, n2, S1, S2) && minDist <= d
        invariant BoundsMoved(g, old(minDist), old(maxDist), minDist, maxDist, n1.leaves, n2.leaves, hit)
        invariant i == 0 ==> minDist == old(minDist)
        invariant sound ==> forall k :: 0 <= k < i ==>
                    Settled(g, threshold, minDist, maxDist, n1.nodes[k].leaves, n2.leaves)
      {
        ghost var min0, max0, children := minDist, maxDist, n1.nodes[..];
        var d1 := VisitFirstChild(n1, n2, i, S1, S2);
        d := if d < d1 then d else d1;
        BoundsTrans(g, old(minDist), old(maxDist), min0, max0, minDist, maxDist, n1.leaves, n2.leaves, hit);
        if sound {
          forall k | 0 <= k < i ensures Settled(g, threshold, minDist, maxDist, n1.nodes[k].leaves, n2.leaves) {
            assert n1.nodes[k] == children[k];
            SettledStays(g, threshold, min0, max0, minDist, maxDist, n1.nodes[k].leaves, n2.leaves);
          }
        }
      }
      TreesFacts(g, n1, n2, S1, S2);
      if sound {
        PassableHasKids(n1, n2, S1, S2);
        SettledByFirst(g, threshold, minDist, maxDist, S1, n1, n2.leaves);
      }
    }

    /** The visit of one child: the array that is being walked does not change meanwhile. */
    method VisitFirstChild(n1: CircNode, n2: CircNode, i: nat, ghost S1: set<CircNode>, ghost S2: set<CircNode>)
      returns (d: real)
      requires Trees(g, n1, n2, S1, S2) && Valid() && i < n1.numNodes <= n1.nodes.Length
      modifies this`minDist, this`maxDist, this`closest1, this`closest2, Arrays(S1, n1.height), Arrays(S2, n2.height)
      ensures Trees(g, n1, n2, S1, S2) && Valid() && n1.nodes[..] == old(n1.nodes[..])
      ensures minDist <= old(minDist) && maxDist <= old(maxDist)
      ensures BoundsMoved(g, old(minDist), old(maxDist), minDist, maxDist, n1.leaves, n2.leaves, AnyHit(g, S1, S2))
      ensures FirstPassable(n1, n2, S1, S2) ==>
                Settled(g, threshold, minDist, maxDist, n1.nodes[i].leaves, n2.leaves)
      ensures minDist <= d
      decreases n1.height + n2.height, 0, 0
    {
      hide IsGeometry, Closed, CoversLeaves, Settled, AnyHit, SomePairAt, SomePairWithin, Passable;
      FirstChild(g, n1, n2, S1, S2, i);
      ChildIsKid(S1, n1, i);
      var child := n1.nodes[i];
      ArrayIsOwn(g, n1, n2, S1, S2, child.height, n2.height);
      d := Visit(child, n2, S1, S2);
      BoundsWider(g, old(minDist), old(maxDist), minDist, maxDist, child.leaves, n2.leaves, n1.leaves, n2.leaves,
                  AnyHit(g, S1, S2));
    }

    /** Sorts the children of the second node and visits the first node with them. A node without
        children is passed over. */
    method VisitSecond(n1: CircNode, n2: CircNode, ghost S1: set<CircNode>, ghost S2: set<CircNode>) returns (d: real)
      requires Trees(g, n1, n2, S1, S2) && Valid()
      modifies this`minDist, this`maxDist, this`closest1, this`closest2, Arrays(S1, n1.height), Arrays(S2, n2.height)
      ensures Trees(g, n1, n2, S1, S2) && Valid()
      ensures BoundsMoved(g, old(minDist), old(maxDist), minDist, maxDist, n1.leaves, n2.leaves, AnyHit(g, S1, S2))
      ensures SecondPassable(n1, n2, S1, S2) ==> Settled(g, threshold, minDist, maxDist, n1.leaves, n2.leaves)
      ensures n2.numNodes == 0 ==> minDist == old(minDist)
      ensures minDist <= d
      decreases n1.height + n2.height, 0, 1
    {
      hide Trees, IsGeometry, Closed, CoversLeaves, Settled, AnyHit, SomePairAt, SomePairWithin, BoundsMoved;
      hide Passable, FirstPassable, SecondPassable;
      d := FLT_MAX;
      TreesFacts(g, n1, n2, S1, S2);
      SortSecond(n1, n2, S1, S2);
      ghost var hit, sound := AnyHit(g, S1, S2), SecondPassable(n1, n2, S1, S2);
      BoundsAtRest(g, minDist, maxDist, n1.leaves, n2.leaves, hit);
      for i := 0 to n2.numNodes
        invariant Trees(g, n1, n2, S1, S2) && Valid() && hit == AnyHit(g, S1, S2)
        invariant sound == SecondPassable(n1, n2, S1, S2) && minDist <= d
        invariant BoundsMoved(g, old(minDist), old(maxDist), minDist, maxDist, n1.leaves, n2.leaves, hit)
        invariant i == 0 ==> minDist == old(minDist)
        invariant sound ==> forall k :: 0 <= k < i ==>
                    Settled(g, threshold, minDist, maxDist, n1.leaves, n2.nodes[k].leaves)
      {
        ghost var min0, max0, children := minDist, maxDist, n2.nodes[..];
        var d1 := VisitSecondChild(n1, n2, i, S1, S2);
        d := if d < d1 then d else d1;
        BoundsTrans(g, old(minDist), old(maxDist), min0, max0, minDist, maxDist, n1.leaves, n2.leaves, hit);
        if sound {
          forall k | 0 <= k < i ensures Settled(g, threshold, minDist, maxDist, n1.leaves, n2.nodes[k].leaves) {
            assert n2.nodes[k] == children[k];
            SettledStays(g, threshold, min0, max0, minDist, maxDist, n1.leaves, n2.nodes[k].leaves);
          }
        }
      }
      TreesFacts(g, n1, n2, S1, S2);
      if sound {
        PassableHasKids(n1, n2, S1, S2);
        SettledBySecond(g, threshold, minDist, maxDist, S2, n2, n1.leaves);
      }
    }

    /** The visit of one child: the array that is being walked does not change meanwhile. */
    method VisitSecondChild(n1: CircNode, n2: CircNode, i: nat, ghost S1: set<CircNode>, ghost S2: set<CircNode>)
      returns (d: real)
      requires Trees(g, n1, n2, S1, S2) && Valid() && i < n2.numNodes <= n2.nodes.Length
      modifies this`minDist, this`maxDist, this`closest1, this`closest2, Arrays(S1, n1.height), Arrays(S2, n2.height)
      ensures Trees(g, n1, n2, S1, S2) && Valid() && n2.nodes[..] == old(n2.nodes[..])
      ensures minDist <= old(minDist) && maxDist <= old(maxDist)
      ensures BoundsMoved(g, old(minDist), old(maxDist), minDist, maxDist, n1.leaves, n2.leaves, AnyHit(g, S1, S2))
      ensures SecondPassable(n1, n2, S1, S2) ==>
                Settled(g, threshold, minDist, maxDist, n1.leaves, n2.nodes[i].leaves)
      ensures minDist <= d
      decreases n1.height + n2.height, 0, 0
    {
      hide IsGeometry, Closed, CoversLeaves, Settled, AnyHit, SomePairAt, SomePairWithin, Passable;
      SecondChild(g, n1, n2, S1, S2, i);
      ChildIsKid(S2, n2, i);
      var child := n2.nodes[i];
      ArrayIsOwn(g, n1, n2, S1, S2, n1.height, child.height);
      d := Visit(n1, child, S1, S2);
      BoundsWider(g, old(minDist), old(maxDist), minDist, maxDist, n1.leaves, child.leaves, n1.leaves, n2.leaves,
                  AnyHit(g, S1, S2));
    }

    method SortFirst(n1: CircNode, n2: CircNode, ghost S1: set<CircNode>, ghost S2: set<CircNode>)
      requires Trees(g, n1, n2, S1, S2)
      modifies n1.nodes
      ensures Trees(g, n1, n2, S1, S2)
    {
      SortNode(n1, n2, S1);
    }

    method SortSecond(n1: CircNode, n2: CircNode, ghost S1: set<CircNode>, ghost S2: set<CircNode>)
      requires Trees(g, n1, n2, S1, S2)
      modifies n2.nodes
      ensures Trees(g, n1, n2, S1, S2)
    {
      SortNode(n2, n1, S2);
    }

    method SortNode(n: CircNode, target: CircNode, ghost S: set<CircNode>)
      requires Closed(S) && n in S
      modifies n.nodes
      ensures Closed(S)
    {
      assert NodeOk(n, S);
      ghost var before := n.Children();
      SortChildren(g, n.nodes, n.numNodes, target);
      hide LeafBag;
      ReorderedNodeOk(S, n, before);
      forall m | m in S ensures NodeOk(m, S) {
      }
    }
  }

  lemma RootsTested(g: Geometry, n1: CircNode, n2: CircNode, S1: set<CircNode>, S2: set<CircNode>)
    requires Trees(g, n1, n2, S1, S2)
    ensures Closed(S1) && Closed(S2) && n1 in S1 && n2 in S2
    ensures MinDistance(g, n1.circle, n2.circle) <= FLT_MAX
    ensures ContainsAll(g, n1, n2) || ContainsAll(g, n2, n1) ==> EitherContainsFirst(g, n1, n2, S1, S2)
  {
    hide IsGeometry, ContainsAll, ContainsFirst;
    HasLeaf(S1, n1);
    HasLeaf(S2, n2);
    CirclesBoundLeaves(g, n1, n2, n1.leaves[0], n2.leaves[0]);
    LeafDistanceInRange(g, n1.leaves[0], n2.leaves[0]);
    if ContainsAll(g, n1, n2) { ContainsAllThenFirst(g, n1, n2, S2); }
    if ContainsAll(g, n2, n1) { ContainsAllThenFirst(g, n2, n1, S1); }
  }

  lemma BoundsAtRest(g: Geometry, min: real, max: real, a: seq<Leaf>, b: seq<Leaf>, hit: bool)
    ensures BoundsMoved(g, min, max, min, max, a, b, hit)
  {
  }

  /** circ_tree_distance_tree for a sphere: the distance of the closest pair of leaves, or one below
      the (slightly decreased) threshold, or zero for a vertex inside a polygon, as long as no pair
      that the descent can reach is passed over. When the roots are passed over nothing is found. */
  method DistanceTree(g: Geometry, n1: CircNode, n2: CircNode, radius: real, threshold: real,
                      ghost S1: set<CircNode>, ghost S2: set<CircNode>)
    returns (result: real, minDist: real, closest1: Point, closest2: Point)
    requires Trees(g, n1, n2, S1, S2) && 0.0 < radius
    modifies Arrays(S1, n1.height), Arrays(S2, n2.height)
    ensures Trees(g, n1, n2, S1, S2) && result == radius * g.dist(closest1, closest2)
    ensures Passable(n1, n2, S1, S2) ==>
              forall l1, l2 :: l1 in n1.leaves && l2 in n2.leaves ==>
                minDist < 0.95 * threshold / radius || minDist <= LeafDistance(g, l1, l2)
    ensures Passable(n1, n2, S1, S2) && 0.95 * threshold / radius <= FLT_MAX ==>
              && minDist == g.dist(closest1, closest2)
              && (SomePairAt(g, minDist, n1.leaves, n2.leaves) || (minDist == 0.0 && AnyHit(g, S1, S2)))
    ensures PassedOver(n1, n2) ==> minDist == FLT_MAX
    ensures 0.95 * threshold / radius <= FLT_MAX && old(EitherContainsFirst(g, n1, n2, S1, S2)) ==>
              minDist == 0.0 && result == 0.0
    ensures 0.95 * threshold / radius <= FLT_MAX && old(ContainsAll(g, n1, n2) || ContainsAll(g, n2, n1)) ==>
              minDist == 0.0 && result == 0.0
  {
    hide Trees, IsGeometry, Closed, CoversLeaves, Settled, AnyHit, SomePairAt, SomePairWithin, BoundsMoved;
    hide Passable, MinDistance, LeafDistance, EitherContainsFirst, ContainsAll, PassedOver;
    RootsTested(g, n1, n2, S1, S2);
    var thresholdRadians := 0.95 * threshold / radius;
    var search := new DistanceSearch(g, thresholdRadians);
    var d := search.Visit(n1, n2, S1, S2);
    minDist, closest1, closest2 := search.minDist, search.closest1, search.closest2;
    result := radius * g.dist(closest1, closest2);
    TreesFacts(g, n1, n2, S1, S2);
    HasLeaf(S1, n1);
    HasLeaf(S2, n2);
    if Passable(n1, n2, S1, S2) {
      BestIsExact(g, thresholdRadians, minDist, search.maxDist, n1.leaves, n2.leaves, AnyHit(g, S1, S2));
    }
  }

  lemma BestIsExact(g: Geometry, threshold: real, min: real, max: real, a: seq<Leaf>, b: seq<Leaf>, hit: bool)
    requires IsGeometry(g) && 0.0 <= min && a != [] && b != []
    requires BoundsMoved(g, FLT_MAX, FLT_MAX, min, max, a, b, hit) && Settled(g, threshold, min, max, a, b)
    ensures forall l1, l2 :: l1 in a && l2 in b ==> min < threshold || min <= LeafDistance(g, l1, l2)
    ensures threshold <= FLT_MAX ==> min < FLT_MAX && (SomePairAt(g, min, a, b) || (min == 0.0 && hit))
  {
    hide IsGeometry;
    forall l1, l2 | l1 in a && l2 in b ensures min < threshold || min <= LeafDistance(g, l1, l2) {
      SettledIsExact(g, threshold, min, max, a, b, l1, l2);
    }
    assert a[0] in a && b[0] in b;
    LeafDistanceInRange(g, a[0], b[0]);
  }

  function Origin(): Point { Point(0.0, 0.0) }

  function FarEnd(): Point { Point(1.0, 0.0) }

  lemma TwoPointCover(root: CircNode, a: CircNode, b: CircNode)
    requires a.circle == PointLeaf(Origin()).circle && a.leaves == [PointLeaf(Origin())]
    requires b.circle == PointLeaf(FarEnd()).circle && b.leaves == [PointLeaf(FarEnd())]
    requires root.circle == MergeCircles(Interval(), Circles([a, b])) && root.leaves == LeavesOf([a, b])
    ensures root.leaves == [PointLeaf(Origin()), PointLeaf(FarEnd())]
    ensures CoversLeaves(Interval(), a) && CoversLeaves(Interval(), b) && CoversLeaves(Interval(), root)
  {
    hide IsGeometry, Interval, LeavesOf, GoodLeaf, Covers, PointLeaf, MergeCircles;
    var g := Interval();
    IntervalIsGeometry();
    TwoLeaves(a, b);
    var cs := Circles([a, b]);
    assert cs == [a.circle, b.circle];
    TwoPointsNeverSlip();
    MergedCircleCoversAll(g, cs, 0);
    MergedCircleCoversAll(g, cs, 1);
    PointCover(g, Origin());
    PointCover(g, FarEnd());
  }

  lemma TwoLeaves(a: CircNode, b: CircNode)
    ensures LeavesOf([a, b]) == a.leaves + b.leaves
  {
    LeavesSnoc([a], b);
    LeavesSnoc([], a);
    assert [a] + [b] == [a, b] && [] + [a] == [a];
    LeavesOfNone();
  }

  lemma TwoPointsNeverSlip()
    ensures NeverSlips(Interval(), [PointLeaf(Origin()).circle, PointLeaf(FarEnd()).circle])
  {
    var cs := [PointLeaf(Origin()).circle, PointLeaf(FarEnd()).circle];
    assert cs[..1] == [cs[0]];
    assert IntervalDist(Origin(), FarEnd()) == 1.0;
    assert !Slips(Interval(), cs[0], cs[1]);
  }

  lemma PointCover(g: Geometry, p: Point)
    requires IsGeometry(g)
    ensures GoodLeaf(g, PointLeaf(p)) && Covers(g, PointLeaf(p).circle, PointLeaf(p).circle)
  {
    hide IsGeometry;
    LeavesAreGood(g, p, p);
    Triangle(g, p, p, p);
  }

  lemma LeavesAreClosed(S: set<CircNode>)
    requires forall n :: n in S ==> n.numNodes == 0 && n.leaves == [Leaf(n.circle, n.edge)] && n.kids == {}
    requires OwnArrays(S)
    ensures Closed(S)
  {
  }

  method TwoPoints() returns (a: CircNode, b: CircNode)
    ensures fresh(a) && fresh(a.nodes) && fresh(b) && fresh(b.nodes) && a != b && a.nodes != b.nodes && Closed({a, b})
    ensures a.circle == PointLeaf(Origin()).circle && a.leaves == [PointLeaf(Origin())] && a.geomType == POINTTYPE
    ensures b.circle == PointLeaf(FarEnd()).circle && b.leaves == [PointLeaf(FarEnd())] && b.geomType == POINTTYPE
  {
    hide Closed;
    a := new CircNode.NewLeaf(PointLeaf(Origin()));
    b := new CircNode.NewLeaf(PointLeaf(FarEnd()));
    a.geomType, b.geomType := POINTTYPE, POINTTYPE;
    LeavesAreClosed({a, b});
  }

  lemma TwoPointType(ns: seq<CircNode>)
    requires |ns| == 2 && ns[0].geomType == POINTTYPE && ns[1].geomType == POINTTYPE
    ensures PromoteAll(TypesOf(ns)) == MULTIPOINTTYPE
  {
    var ts := TypesOf(ns);
    assert ts == [POINTTYPE, POINTTYPE];
    assert ts[..1] == [POINTTYPE] && ts[..1][..0] == [];
  }

  /** Two point nodes under one parent, at longitudes 0 and 1 of the unit interval. */
  method TwoPointTree() returns (root: CircNode, ghost S: set<CircNode>)
    ensures root in S && Closed(S) && Covering(Interval(), S) && root.numNodes == 2 && root.geomType == MULTIPOINTTYPE
    ensures root.leaves == [PointLeaf(Origin()), PointLeaf(FarEnd())]
    ensures forall n :: n in S ==> fresh(n) && fresh(n.nodes)
  {
    hide IsGeometry, MergeCircles, LeavesOf, CoversLeaves, Closed, NodeOk, Origin, FarEnd, PointLeaf, Interval;
    var a, b := TwoPoints();
    var nodes := new CircNode[2](_ => a);
    nodes[1] := b;
    root := InternalNew(Interval(), nodes, 2);
    assert nodes[..2] == [a, b] && root.Children() == [a, b];
    TwoPointType([a, b]);
    AddParent(Interval(), {a, b}, root);
    TwoPointCover(root, a, b);
    S := {a, b} + {root};
  }

  /** A single point node of the given type. */
  method PointNode(geomType: nat) returns (n: CircNode, ghost S: set<CircNode>)
    ensures n in S && Closed(S) && Covering(Interval(), S) && n.IsLeaf() && n.geomType == geomType
    ensures n.leaves == [PointLeaf(Origin())] && forall m :: m in S ==> fresh(m) && fresh(m.nodes)
  {
    IntervalIsGeometry();
    hide IsGeometry, GoodLeaf;
    n := new CircNode.NewLeaf(PointLeaf(Origin()));
    n.geomType := geomType;
    S := {n};
    assert NodeOk(n, S);
    LeavesAreGood(Interval(), Origin(), Origin());
    Triangle(Interval(), Origin(), Origin(), Origin());
  }

  lemma OriginDistance()
    ensures LeafDistance(Interval(), PointLeaf(Origin()), PointLeaf(Origin())) == 0.0
  {
  }

  lemma SeparateTrees(g: Geometry, n1: CircNode, n2: CircNode, S1: set<CircNode>, S2: set<CircNode>)
    requires n1 in S1 && n2 in S2 && Closed(S1) && Closed(S2) && IsGeometry(g) && Covering(g, S1) && Covering(g, S2)
    requires forall a, b :: a in S1 && b in S2 ==> a.nodes != b.nodes
    ensures Trees(g, n1, n2, S1, S2)
  {
    hide Closed, IsGeometry, Covering;
  }

  /** A multipoint of one point and one empty point is a node of a collection type without children
      (lwcollection_calculate_circ_tree sets the type on whatever the merge returns). Its distance
      to the two points above is zero, but the search passes over the pair and finds nothing. */
  method MultipointWithEmptyMember()
    returns (n1: CircNode, n2: CircNode, minDist: real, ghost S1: set<CircNode>, ghost S2: set<CircNode>)
    ensures Trees(Interval(), n1, n2, S1, S2) && PassedOver(n1, n2)
    ensures n1.geomType == MULTIPOINTTYPE && n2.geomType == MULTIPOINTTYPE
    ensures n1.leaves != [] && n2.leaves != [] && LeafDistance(Interval(), n1.leaves[0], n2.leaves[0]) == 0.0
    ensures minDist == FLT_MAX
  {
    IntervalIsGeometry();
    hide IsGeometry, Closed, Covering, Settled, SomePairAt, AnyHit, Passable, Interval, LeafDistance, PointLeaf, Trees;
    n1, S1 := PointNode(MULTIPOINTTYPE);
    n2, S2 := TwoPointTree();
    SeparateTrees(Interval(), n1, n2, S1, S2);
    OriginDistance();
    var result, closest1, closest2;
    result, minDist, closest1, closest2 := DistanceTree(Interval(), n1, n2, 1.0, 0.0, S1, S2);
  }
}
