/** The bounding-circle tree of liblwgeom/lwgeodetic_tree.c: its nodes, and the properties every tree
    operation relies on. */
module CircTree {
  import opened CircGeometry

  const CIRC_NODE_SIZE := 8

  class CircNode {
    const circle: Circle
    const numNodes: nat
    const nodes: array<CircNode>
    const edge: Edge
    var geomType: nat
    var ptOutside: Point

    /** The leaves below the node, in the left-to-right order of the build. */
    ghost const leaves: seq<Leaf>
    ghost const height: nat

    /** The children, in whatever order the array has them. */
    ghost const kids: set<CircNode>

    constructor NewLeaf(leaf: Leaf)
      ensures circle == leaf.circle && edge == leaf.edge && numNodes == 0 && fresh(nodes) && nodes.Length == 0
      ensures leaves == [leaf] && height == 0 && geomType == 0 && kids == {}
    {
      circle := leaf.circle;
      edge := leaf.edge;
      numNodes := 0;
      nodes := new CircNode[0];
      geomType := 0;
      ptOutside := Point(0.0, 0.0);
      leaves := [leaf];
      height := 0;
      kids := {};
    }

    constructor NewInternal(circle: Circle, geomType: nat, nodes: array<CircNode>, numNodes: nat)
      requires 0 < numNodes <= nodes.Length
      ensures this.circle == circle && this.numNodes == numNodes && this.nodes == nodes && this.geomType == geomType
      ensures leaves == LeavesOf(nodes[..numNodes]) && height == MaxHeight(nodes[..numNodes]) + 1
      ensures forall c :: c in kids <==> c in nodes[..numNodes]
    {
      this.circle := circle;
      this.edge := Edge(Point(0.0, 0.0), Point(0.0, 0.0));
      this.numNodes := numNodes;
      this.nodes := nodes;
      this.geomType := geomType;
      this.ptOutside := Point(0.0, 0.0);
      this.leaves := LeavesOf(nodes[..numNodes]);
      this.height := MaxHeight(nodes[..numNodes]) + 1;
      this.kids := set c | c in nodes[..numNodes];
    }

    predicate IsLeaf() {
      numNodes == 0
    }

    ghost function Children(): seq<CircNode>
      reads nodes
      requires numNodes <= nodes.Length
    {
      nodes[..numNodes]
    }
  }

  ghost function LeavesOf(ns: seq<CircNode>): seq<Leaf> {
    if ns == [] then [] else LeavesOf(ns[..|ns| - 1]) + ns[|ns| - 1].leaves
  }

  ghost function MaxHeight(ns: seq<CircNode>): (h: nat)
    ensures forall i :: 0 <= i < |ns| ==> ns[i].height <= h
  {
    if ns == [] then 0
    else
      var h := MaxHeight(ns[..|ns| - 1]);
      if h < ns[|ns| - 1].height then ns[|ns| - 1].height else h
  }

  function Circles(ns: seq<CircNode>): (cs: seq<Circle>)
    ensures |cs| == |ns|
  {
    seq(|ns|, i requires 0 <= i < |ns| => ns[i].circle)
  }

  // ----- a set of nodes that is closed under children -----

  /** The multiset of all leaves below the nodes of ns, in whatever order ns is. */
  ghost function LeafBag(ns: seq<CircNode>): multiset<Leaf> {
    if ns == [] then multiset{} else LeafBag(ns[..|ns| - 1]) + multiset(ns[|ns| - 1].leaves)
  }

  ghost predicate NodeOk(n: CircNode, S: set<CircNode>)
    reads n.nodes
  {
    && n.numNodes <= n.nodes.Length && n.numNodes <= CIRC_NODE_SIZE
    && (n.IsLeaf() ==> n.leaves == [Leaf(n.circle, n.edge)])
    && (!n.IsLeaf() ==> multiset(n.leaves) == LeafBag(n.Children()))
    && (forall c :: c in n.Children() ==> c in S && c.height < n.height && c in n.kids)
    && (forall c :: c in n.kids ==> c in n.Children())
  }

  /** Child arrays belong to one node only. */
  ghost predicate OwnArrays(S: set<CircNode>) {
    forall m, n :: m in S && n in S && m != n ==> m.nodes != n.nodes
  }

  /** What every operation on trees keeps: S is closed under children, every internal node has the
      leaves of its children, and heights decrease towards the leaves. Reordering the children of a
      node keeps it. */
  ghost predicate Closed(S: set<CircNode>)
    reads set n | n in S :: n.nodes
  {
    OwnArrays(S) && forall n :: n in S ==> NodeOk(n, S)
  }

  /** Every node's circle contains the circles of all leaves below it. */
  ghost predicate Covering(g: Geometry, S: set<CircNode>) {
    forall n :: n in S ==> CoversLeaves(g, n)
  }

  ghost predicate CoversLeaves(g: Geometry, n: CircNode) {
    forall l :: l in n.leaves ==> GoodLeaf(g, l) && Covers(g, n.circle, l.circle)
  }
}
