/** The bottom-up build of the circle tree: circ_node_internal_new and circ_nodes_merge of
    liblwgeom/lwgeodetic_tree.c. */
module CircTreeBuild {
  import opened CircGeometry
  import opened CircTypes
  import opened CircTree

  function TypesOf(ns: seq<CircNode>): (types: seq<nat>)
    reads ns
    ensures |types| == |ns|
  {
    seq(|ns|, i requires 0 <= i < |ns| reads ns => ns[i].geomType)
  }

  lemma LeavesOfIsBag(ns: seq<CircNode>)
    ensures multiset(LeavesOf(ns)) == LeafBag(ns)
  {
  }

  lemma LeafBelongsToOne(ns: seq<CircNode>, l: Leaf)
    requires l in LeafBag(ns)
    ensures exists i :: 0 <= i < |ns| && l in ns[i].leaves
  {
    if l in multiset(ns[|ns| - 1].leaves) {
    } else {
      LeafBelongsToOne(ns[..|ns| - 1], l);
      var i :| 0 <= i < |ns| - 1 && l in ns[..|ns| - 1][i].leaves;
      assert l in ns[i].leaves;
    }
  }

  /** circ_node_internal_new. */
  method InternalNew(g: Geometry, c: array<CircNode>, numNodes: nat) returns (node: CircNode?)
    requires numNodes <= c.Length
    ensures node == null <==> numNodes == 0
    ensures node != null ==>
      && fresh(node) && node.nodes == c && node.numNodes == numNodes
      && node.circle == MergeCircles(g, Circles(c[..numNodes])) && node.geomType == PromoteAll(TypesOf(c[..numNodes]))
      && node.leaves == LeavesOf(c[..numNodes]) && node.height == MaxHeight(c[..numNodes]) + 1
      && forall n :: n in node.kids <==> n in c[..numNodes]
    ensures node != null ==> IsParentType(TypesOf(c[..numNodes]), node.geomType)
  {
    hide IsParentType;
    if numNodes < 1 {
      return null;
    }
    var newCenter := c[0].circle.center;
    var newRadius := c[0].circle.radius;
    var newGeomType := c[0].geomType;
    for i := 1 to numNodes
      invariant Circle(newCenter, newRadius) == MergeCircles(g, Circles(c[..i]))
      invariant newGeomType == PromoteAll(TypesOf(c[..i]))
    {
      var c1 := newCenter;
      var r1 := newRadius;
      var dist := g.dist(c1, c[i].circle.center);
      var ri := c[i].circle.radius;
      newGeomType := PromoteType(newGeomType, c[i].geomType);
      if Abs(dist - 0.0) <= FP_TOLERANCE {
        newRadius := r1 + 2.0 * dist;
        newCenter := c1;
      } else if dist < Abs(r1 - ri) {
        if r1 > ri {
          newCenter := c1;
          newRadius := r1;
        } else {
          newCenter := c[i].circle.center;
          newRadius := ri;
        }
      } else {
        var D := dist + r1 + ri;
        newRadius := D / 2.0;
        var offset1 := ri + (D - (2.0 * r1 + 2.0 * ri)) / 2.0;
        newCenter := g.project(c1, c[i].circle.center, offset1);
      }
      assert Circles(c[..i + 1])[..i] == Circles(c[..i]) && TypesOf(c[..i + 1])[..i] == TypesOf(c[..i]);
      assert Circle(newCenter, newRadius) == MergeCircle(g, Circle(c1, r1), c[i].circle);
    }
    PromoteAllGathers(TypesOf(c[..numNodes]));
    node := new CircNode.NewInternal(Circle(newCenter, newRadius), newGeomType, c, numNodes);
  }

  /** A parent whose circle, leaves and type come from its children. */
  ghost predicate MadeFromChildren(g: Geometry, n: CircNode, S: set<CircNode>)
    requires n in S
    reads S, n.nodes
  {
    && 2 <= n.numNodes <= n.nodes.Length && n.circle == MergeCircles(g, Circles(n.Children()))
    && n.leaves == LeavesOf(n.Children())
    && (forall c :: c in n.Children() ==> c in S)
    && IsParentType(TypesOf(n.Children()), n.geomType)
  }

  /** A set of nodes grown by such parents. */
  ghost predicate GrownFrom(g: Geometry, S0: set<CircNode>, S: set<CircNode>)
    reads S, set n | n in S :: n.nodes
  {
    && S0 <= S
    && forall n :: n in S && n !in S0 ==> MadeFromChildren(g, n, S)
  }

  lemma AddParent(g: Geometry, S: set<CircNode>, node: CircNode)
    requires Closed(S) && node !in S && 2 <= node.numNodes <= node.nodes.Length && node.numNodes <= CIRC_NODE_SIZE
    requires forall n :: n in S ==> n.nodes != node.nodes
    requires forall c :: c in node.Children() ==> c in S
    requires node.leaves == LeavesOf(node.Children()) && node.height == MaxHeight(node.Children()) + 1
    requires forall c :: c in node.kids <==> c in node.Children()
    ensures Closed(S + {node})
  {
    LeavesOfIsBag(node.Children());
    forall n | n in S + {node} ensures NodeOk(n, S + {node}) {
      if n in S { assert NodeOk(n, S); }
    }
  }

  /** In a tree grown without a slip from covering subtrees, every circle covers its leaves. */
  lemma {:induction false} GrownCovers(g: Geometry, S0: set<CircNode>, S: set<CircNode>, n: CircNode)
    requires IsGeometry(g) && Closed(S) && S0 <= S && Covering(g, S0)
    requires GrownFrom(g, S0, S)
    requires forall m :: m in S && m !in S0 ==> 0 < m.numNodes <= m.nodes.Length && NeverSlips(g, Circles(m.Children()))
    requires n in S
    ensures CoversLeaves(g, n)
    decreases n.height
  {
    if n !in S0 {
      assert NodeOk(n, S);
      var ns := n.Children();
      forall l | l in n.leaves ensures GoodLeaf(g, l) && Covers(g, n.circle, l.circle) {
        assert l in multiset(n.leaves);
        LeafBelongsToOne(ns, l);
        var i :| 0 <= i < |ns| && l in ns[i].leaves;
        assert ns[i] in ns;
        GrownCovers(g, S0, S, ns[i]);
        MergedCircleCoversAll(g, Circles(ns), i);
        CoversTrans(g, n.circle, ns[i].circle, l.circle);
      }
    } else {
      assert CoversLeaves(g, n);
    }
  }

  // ----- the in-place merge -----

  /** Rounds of eightfold merging until one node is left. */
  function CeilLog8(n: nat): nat {
    if n <= 1 then 0 else 1 + CeilLog8((n + 7) / 8)
  }

  function Pow8(k: nat): nat {
    if k == 0 then 1 else 8 * Pow8(k - 1)
  }

  /** CeilLog8(n) is the least k with n <= 8^k. */
  lemma {:induction false} CeilLog8IsCeiling(n: nat)
    requires 1 <= n
    ensures n <= Pow8(CeilLog8(n)) && (1 < n ==> Pow8(CeilLog8(n) - 1) < n)
  {
    if 1 < n {
      CeilLog8IsCeiling((n + 7) / 8);
    }
  }

  ghost predicate Below(S: set<CircNode>, nodes: seq<CircNode>, h: nat) {
    forall i :: 0 <= i < |nodes| ==> nodes[i] in S && nodes[i].height <= h
  }

  lemma LeavesSnoc(ns: seq<CircNode>, n: CircNode)
    ensures LeavesOf(ns + [n]) == LeavesOf(ns) + n.leaves
  {
    assert (ns + [n])[..|ns|] == ns;
  }

  /** After j children of all: the parents made so far and the children collected for the next one. */
  ghost predicate Progress(all: seq<CircNode>, j: nat, parents: seq<CircNode>, pending: seq<CircNode>,
                           S: set<CircNode>, h: nat) {
    && j <= |all| && |parents| == j / 8 && |pending| == j % 8
    && Below(S, parents, h + 1) && Below(S, pending, h)
    && LeavesOf(all[..j]) == LeavesOf(parents) + LeavesOf(pending)
  }

  lemma Collect(all: seq<CircNode>, j: nat, parents: seq<CircNode>, pending: seq<CircNode>, S: set<CircNode>, h: nat)
    requires Progress(all, j, parents, pending, S, h) && j < |all| && all[j] in S && all[j].height <= h
    ensures Below(S, pending + [all[j]], h) && |pending + [all[j]]| == j % 8 + 1
    ensures LeavesOf(all[..j + 1]) == LeavesOf(parents) + LeavesOf(pending + [all[j]])
    ensures j % 8 != 7 ==> Progress(all, j + 1, parents, pending + [all[j]], S, h)
  {
    hide LeavesOf;
    NextSlot(j);
    assert all[..j + 1] == all[..j] + [all[j]];
    LeavesSnoc(all[..j], all[j]);
    LeavesSnoc(pending, all[j]);
  }

  lemma CollectFull(all: seq<CircNode>, j: nat, parents: seq<CircNode>, pending: seq<CircNode>,
                    S: set<CircNode>, h: nat, parents': seq<CircNode>, S': set<CircNode>)
    requires Progress(all, j, parents, pending, S, h) && j < |all| && all[j] in S && all[j].height <= h && j % 8 == 7
    requires |parents'| == |parents| + 1 && Below(S', parents', h + 1)
    requires LeavesOf(parents') == LeavesOf(parents) + LeavesOf(pending + [all[j]])
    ensures Progress(all, j + 1, parents', [], S', h)
  {
    Collect(all, j, parents, pending, S, h);
    NextSlot(j);
    LeavesOfNone();
  }

  /** One round: the first numChildren entries are merged in groups of eight into the first
      numParents entries of the same array. No entry is overwritten before it is read, so the
      leaves stay in order. */
  method MergeLevel(g: Geometry, nodes: array<CircNode>, numChildren: nat, ghost S0: set<CircNode>, ghost h: nat)
    returns (numParents: nat, ghost S: set<CircNode>)
    requires 2 <= numChildren <= nodes.Length && Closed(S0) && Below(S0, nodes[..numChildren], h)
    requires forall n :: n in S0 ==> n.nodes != nodes
    modifies nodes
    ensures numParents == (numChildren + 7) / 8
    ensures Closed(S) && GrownFrom(g, S0, S) && Below(S, nodes[..numParents], h + 1)
    ensures forall n :: n in S && n !in S0 ==> fresh(n) && fresh(n.nodes)
    ensures LeavesOf(nodes[..numParents]) == LeavesOf(old(nodes[..numChildren]))
  {
    hide Closed, GrownFrom, LeavesOf, Progress, Below;
    S := S0;
    numParents := 0;
    ghost var all := nodes[..numChildren];
    ChildrenBelow(S0, all, h);
    GrownFromItself(g, S0);
    StartLevel(all, S0, h);
    var first := nodes[0];
    var inodes := new CircNode[CIRC_NODE_SIZE](_ => first);
    assert nodes[..0] == [] && inodes[..0] == [];
    for j := 0 to numChildren
      invariant numParents == j / 8
      invariant nodes[j..numChildren] == all[j..]
      invariant fresh(inodes) && inodes.Length == CIRC_NODE_SIZE && inodes != nodes
      invariant j % 8 != 0 ==> forall n :: n in S ==> n.nodes != inodes
      invariant S0 <= S && Closed(S) && GrownFrom(g, S0, S)
      invariant forall n :: n in S && n !in S0 ==> fresh(n) && fresh(n.nodes)
      invariant forall n :: n in S ==> n.nodes != nodes
      invariant Progress(all, j, nodes[..numParents], inodes[..j % 8], S, h)
    {
      assert nodes[j..numChildren][0] == all[j..][0];
      ghost var rest := nodes[j + 1..];
      assert rest[..numChildren - j - 1] == nodes[j..numChildren][1..] == all[j + 1..];
      inodes, numParents, S := TakeChild(g, nodes, inodes, all, j, numParents, S0, S, h);
      assert nodes[j + 1..numChildren] == nodes[j + 1..][..numChildren - j - 1];
    }
    assert all[..numChildren] == all;
    numParents, S := FinishLevel(g, nodes, inodes, (numChildren - 1) % CIRC_NODE_SIZE, all, numParents, S0, S, h);
  }

  /** One turn of the loop over the children. */
  method TakeChild(g: Geometry, nodes: array<CircNode>, collected: array<CircNode>, ghost all: seq<CircNode>, j: nat,
                   at: nat,
                   ghost S0: set<CircNode>, ghost S: set<CircNode>, ghost h: nat)
    returns (inodes: array<CircNode>, numParents: nat, ghost S': set<CircNode>)
    requires j < |all| <= nodes.Length && at == j / 8 && nodes[j] == all[j]
    requires collected.Length == CIRC_NODE_SIZE && collected != nodes
    requires j % 8 != 0 ==> forall n :: n in S ==> n.nodes != collected
    requires Closed(S) && GrownFrom(g, S0, S) && S0 <= S && all[j] in S && all[j].height <= h
    requires forall n :: n in S ==> n.nodes != nodes
    requires Progress(all, j, nodes[..at], collected[..j % 8], S, h)
    modifies nodes, if j % 8 == 0 then {} else {collected}
    ensures inodes.Length == CIRC_NODE_SIZE && inodes != nodes && (inodes == collected || fresh(inodes))
    ensures numParents == (j + 1) / 8 && nodes[j + 1..] == old(nodes[j + 1..])
    ensures (j + 1) % 8 != 0 ==> forall n :: n in S' ==> n.nodes != inodes
    ensures S <= S' && Closed(S') && GrownFrom(g, S0, S')
    ensures forall n :: n in S' && n !in S ==> fresh(n) && (n.nodes == collected || fresh(n.nodes))
    ensures Progress(all, j + 1, nodes[..numParents], inodes[..(j + 1) % 8], S', h)
  {
    hide Closed, GrownFrom, LeavesOf, Progress, Below;
    ghost var parents, pending := nodes[..at], collected[..j % 8];
    inodes, numParents, S' := collected, at, S;
    NextSlot(j);
    var inodeNum := j % CIRC_NODE_SIZE;
    if inodeNum == 0 {
      var first := nodes[j];
      inodes := new CircNode[CIRC_NODE_SIZE](_ => first);
      assert inodes[..0] == pending;
    }
    inodes[inodeNum] := nodes[j];
    assert inodes[..inodeNum + 1] == pending + [all[j]];
    Collect(all, j, parents, pending, S, h);
    if inodeNum == CIRC_NODE_SIZE - 1 {
      ProgressBelow(all, j, parents, pending, S, h);
      S' := Promote(g, nodes, inodes, CIRC_NODE_SIZE, at, S0, S, h);
      numParents := at + 1;
      CollectFull(all, j, parents, pending, S, h, nodes[..numParents], S');
      assert inodes[..0] == [];
      assert nodes[j + 1..] == nodes[at + 1..][j - at..];
    }
  }

  /** The nodes left over by a round: a single one moves up as it is, several get a parent. */
  method FinishLevel(g: Geometry, nodes: array<CircNode>, inodes: array<CircNode>, inodeNum: nat,
                     ghost all: seq<CircNode>, at: nat,
                     ghost S0: set<CircNode>, ghost S: set<CircNode>, ghost h: nat)
    returns (numParents: nat, ghost S': set<CircNode>)
    requires 2 <= |all| <= nodes.Length && at == |all| / 8 && inodeNum == (|all| - 1) % 8
    requires inodes.Length == CIRC_NODE_SIZE && inodes != nodes
    requires |all| % 8 != 0 ==> forall n :: n in S ==> n.nodes != inodes
    requires Closed(S) && GrownFrom(g, S0, S) && forall n :: n in S ==> n.nodes != nodes
    requires Progress(all, |all|, nodes[..at], inodes[..|all| % 8], S, h)
    modifies nodes
    ensures numParents == (|all| + 7) / 8
    ensures S <= S' && Closed(S') && GrownFrom(g, S0, S') && Below(S', nodes[..numParents], h + 1)
    ensures forall n :: n in S' && n !in S ==> fresh(n) && n.nodes == inodes
    ensures LeavesOf(nodes[..numParents]) == LeavesOf(all)
  {
    hide Closed, GrownFrom, LeavesOf, Progress, Below;
    numParents, S' := at, S;
    ghost var parents, pending := nodes[..at], inodes[..|all| % 8];
    NextSlot(|all| - 1);
    EndLevel(all, parents, pending, S, h);
    LeavesOfNone();
    if inodeNum == 0 {
      assert pending == [inodes[0]];
      OneLeft(parents, inodes[0], S, h);
      nodes[at] := inodes[0];
      numParents := at + 1;
      assert nodes[..numParents] == parents + [pending[0]];
    } else if inodeNum < CIRC_NODE_SIZE - 1 {
      S' := Promote(g, nodes, inodes, inodeNum + 1, at, S0, S, h);
      numParents := at + 1;
    }
  }

  lemma ChildrenBelow(S: set<CircNode>, all: seq<CircNode>, h: nat)
    requires Below(S, all, h)
    ensures forall j :: 0 <= j < |all| ==> all[j] in S && all[j].height <= h
  {
  }

  lemma StartLevel(all: seq<CircNode>, S: set<CircNode>, h: nat)
    ensures Progress(all, 0, [], [], S, h)
  {
    LeavesOfNone();
    assert all[..0] == [];
  }

  lemma ProgressBelow(all: seq<CircNode>, j: nat, parents: seq<CircNode>, pending: seq<CircNode>, S: set<CircNode>,
                      h: nat)
    requires Progress(all, j, parents, pending, S, h)
    ensures Below(S, parents, h + 1)
  {
  }

  lemma EndLevel(all: seq<CircNode>, parents: seq<CircNode>, pending: seq<CircNode>, S: set<CircNode>, h: nat)
    requires Progress(all, |all|, parents, pending, S, h)
    ensures Below(S, parents, h + 1) && Below(S, pending, h)
    ensures LeavesOf(all) == LeavesOf(parents) + LeavesOf(pending)
  {
    assert all[..|all|] == all;
  }

  lemma OneLeft(parents: seq<CircNode>, n: CircNode, S: set<CircNode>, h: nat)
    requires Below(S, parents, h + 1) && Below(S, [n], h)
    ensures LeavesOf(parents + [n]) == LeavesOf(parents) + LeavesOf([n]) && Below(S, parents + [n], h + 1)
  {
    LeavesSnoc(parents, n);
    LeavesSnoc([], n);
    LeavesOfNone();
    hide LeavesOf;
    var none: seq<CircNode> := [];
    assert none + [n] == [n];
    assert [n][0] == n && n in [n];
  }

  /** Stores a new parent of the collected children in the next free entry of the array. */
  method Promote(g: Geometry, nodes: array<CircNode>, inodes: array<CircNode>, num: nat, at: nat,
                 ghost S0: set<CircNode>, ghost S: set<CircNode>, ghost h: nat) returns (ghost S': set<CircNode>)
    requires 2 <= num <= CIRC_NODE_SIZE && num <= inodes.Length && at < nodes.Length && inodes != nodes
    requires Closed(S) && GrownFrom(g, S0, S) && forall n :: n in S ==> n.nodes != nodes && n.nodes != inodes
    requires Below(S, nodes[..at], h + 1) && Below(S, inodes[..num], h)
    modifies nodes
    ensures nodes[..at] == old(nodes[..at]) && nodes[at + 1..] == old(nodes[at + 1..])
    ensures S < S' && forall n :: n in S' && n !in S ==> fresh(n) && n.nodes == inodes
    ensures Closed(S') && GrownFrom(g, S0, S') && Below(S', nodes[..at + 1], h + 1)
    ensures LeavesOf(nodes[..at + 1]) == LeavesOf(nodes[..at]) + LeavesOf(inodes[..num])
  {
    hide LeavesOf, Closed, GrownFrom, MaxHeight, IsParentType;
    var node := InternalNew(g, inodes, num);
    forall c | c in node.Children() ensures c in S {
      var i :| 0 <= i < num && inodes[..num][i] == c;
    }
    AddParent(g, S, node);
    GrownByOne(g, S0, S, node);
    MaxHeightBelow(S, inodes[..num], h);
    LeavesSnoc(nodes[..at], node);
    S' := S + {node};
    nodes[at] := node;
    assert nodes[..at + 1] == nodes[..at] + [node];
  }

  lemma GrownByOne(g: Geometry, S0: set<CircNode>, S: set<CircNode>, node: CircNode)
    requires GrownFrom(g, S0, S) && 2 <= node.numNodes <= node.nodes.Length
    requires node.circle == MergeCircles(g, Circles(node.Children())) && node.leaves == LeavesOf(node.Children())
    requires forall c :: c in node.Children() ==> c in S
    requires IsParentType(TypesOf(node.Children()), node.geomType)
    ensures GrownFrom(g, S0, S + {node})
  {
    hide IsParentType;
    forall n | n in S + {node} && n !in S0 ensures MadeFromChildren(g, n, S + {node}) {
      if n in S && n != node { assert MadeFromChildren(g, n, S); }
    }
  }

  /** How the slot of a child and the number of full groups move on. */
  lemma NextSlot(j: nat)
    ensures (j + 1) % 8 == if j % 8 == 7 then 0 else j % 8 + 1
    ensures (j + 1) / 8 == if j % 8 == 7 then j / 8 + 1 else j / 8
  {
  }

  lemma GrownFromItself(g: Geometry, S: set<CircNode>)
    ensures GrownFrom(g, S, S)
  {
  }

  lemma LeavesOfNone()
    ensures LeavesOf([]) == []
  {
  }

  lemma MaxHeightBelow(S: set<CircNode>, ns: seq<CircNode>, h: nat)
    requires Below(S, ns, h)
    ensures MaxHeight(ns) <= h
  {
    if ns != [] {
      assert Below(S, ns[..|ns| - 1], h);
      MaxHeightBelow(S, ns[..|ns| - 1], h);
    }
  }

  /** circ_nodes_merge: rounds of merging until one node, the root, is left. The root has the
      leaves of the given nodes in their order, every new node has 2 to 8 children, and the tree
      grows by at most ceil(log8 n) levels. */
  method NodesMerge(g: Geometry, nodes: array<CircNode>, numNodes: nat, ghost S0: set<CircNode>, ghost h: nat)
    returns (root: CircNode, ghost S: set<CircNode>)
    requires 1 <= numNodes <= nodes.Length && Closed(S0) && Below(S0, nodes[..numNodes], h)
    requires forall n :: n in S0 ==> n.nodes != nodes
    modifies nodes
    ensures root in S && root.leaves == LeavesOf(old(nodes[..numNodes]))
    ensures root.height <= h + CeilLog8(numNodes)
    ensures Closed(S) && GrownFrom(g, S0, S)
    ensures forall n :: n in S && n !in S0 ==> fresh(n) && fresh(n.nodes) && 2 <= n.numNodes <= CIRC_NODE_SIZE
    ensures IsGeometry(g) && Covering(g, S0)
         && (forall n :: n in S && n !in S0 ==> NeverSlips(g, Circles(n.Children())))
         ==> Covering(g, S)
  {
    hide Closed, GrownFrom, IsParentType;
    var numChildren := numNodes;
    S := S0;
    ghost var level: nat := h;
    GrownFromItself(g, S0);
    ghost var all := nodes[..numNodes];
    while numChildren > 1
      invariant 1 <= numChildren <= numNodes
      invariant level + CeilLog8(numChildren) == h + CeilLog8(numNodes)
      invariant S0 <= S && Closed(S) && GrownFrom(g, S0, S) && Below(S, nodes[..numChildren], level)
      invariant forall n :: n in S && n !in S0 ==> fresh(n) && fresh(n.nodes)
      invariant forall n :: n in S ==> n.nodes != nodes
      invariant LeavesOf(nodes[..numChildren]) == LeavesOf(all)
      decreases numChildren
    {
      hide LeavesOf, Below;
      ghost var S1;
      numChildren, S1 := MergeLevel(g, nodes, numChildren, S, level);
      GrownTransClosed(g, S0, S, S1);
      S := S1;
      level := level + 1;
    }
    root := nodes[0];
    assert nodes[..1] == [] + [root];
    LeavesSnoc([], root);
    LeavesOfNone();
    TreeFacts(g, S0, S);
  }

  lemma GrownTransClosed(g: Geometry, S0: set<CircNode>, S1: set<CircNode>, S2: set<CircNode>)
    requires GrownFrom(g, S0, S1) && GrownFrom(g, S1, S2)
    ensures GrownFrom(g, S0, S2) && S1 <= S2
  {
    hide IsParentType, TypesOf;
    forall n | n in S2 && n !in S0 ensures MadeFromChildren(g, n, S2) {
      if n in S1 { assert MadeFromChildren(g, n, S1); }
    }
  }

  lemma TreeFacts(g: Geometry, S0: set<CircNode>, S: set<CircNode>)
    requires Closed(S) && GrownFrom(g, S0, S)
    ensures forall n :: n in S && n !in S0 ==> 2 <= n.numNodes <= CIRC_NODE_SIZE && n.numNodes <= n.nodes.Length
    ensures IsGeometry(g) && Covering(g, S0)
         && (forall n :: n in S && n !in S0 ==> NeverSlips(g, Circles(n.Children())))
         ==> Covering(g, S)
  {
    forall n | n in S ensures n.numNodes <= CIRC_NODE_SIZE {
      assert NodeOk(n, S);
    }
    if IsGeometry(g) && Covering(g, S0) && forall n :: n in S && n !in S0 ==> NeverSlips(g, Circles(n.Children())) {
      forall n | n in S ensures CoversLeaves(g, n) {
        GrownCovers(g, S0, S, n);
      }
    }
  }

  // ----- one node per edge -----

  /** The leaves of a point array: its edges of non-zero length, or its first point. */
  function EdgeLeaves(g: Geometry, pts: seq<Point>): seq<Leaf> {
    if |pts| <= 1 then []
    else
      var n := |pts| - 1;
      var rest := EdgeLeaves(g, pts[..n]);
      if Abs(g.dist(pts[n - 1], pts[n]) - 0.0) <= FP_TOLERANCE then rest else rest + [EdgeLeaf(g, pts[n - 1], pts[n])]
  }

  function ArrayLeaves(g: Geometry, pts: seq<Point>): seq<Leaf>
    requires pts != []
  {
    if EdgeLeaves(g, pts) == [] then [PointLeaf(pts[0])] else EdgeLeaves(g, pts)
  }

  lemma AddLeaf(g: Geometry, S: set<CircNode>, node: CircNode, p1: Point, p2: Point)
    requires Closed(S) && node.numNodes == 0 && node.kids == {} && node.leaves == [EdgeLeaf(g, p1, p2)]
    requires Leaf(node.circle, node.edge) == EdgeLeaf(g, p1, p2) && forall n :: n in S ==> n.nodes != node.nodes
    ensures Closed(S + {node})
    ensures IsGeometry(g) && Covering(g, S) ==> Covering(g, S + {node})
  {
    forall n | n in S ensures NodeOk(n, S + {node}) {
      assert NodeOk(n, S);
    }
    if IsGeometry(g) && Covering(g, S) {
      LeavesAreGood(g, p1, p2);
      Triangle(g, node.circle.center, node.circle.center, node.circle.center);
      hide IsGeometry;
    }
  }

  method SingleLeaf(g: Geometry, p: Point) returns (root: CircNode, ghost S: set<CircNode>)
    ensures root in S && root.leaves == [PointLeaf(p)] && Closed(S)
    ensures forall n :: n in S ==> fresh(n) && fresh(n.nodes)
    ensures IsGeometry(g) ==> Covering(g, S)
    ensures root.height == 0 && forall n :: n in S ==> n.numNodes == 0
  {
    root := new CircNode.NewLeaf(PointLeaf(p));
    S := {root};
    if IsGeometry(g) {
      LeavesAreGood(g, p, p);
      Triangle(g, p, p, p);
    }
  }

  /** circ_tree_new: a tree whose left-to-right leaves are the non-degenerate edges of the point
      array, with at most ceil(log8) of their number levels and 2 to 8 children in every internal node.
      When no merge slips, every circle covers the leaves below it. */
  method TreeNew(g: Geometry, pts: seq<Point>) returns (root: CircNode?, ghost S: set<CircNode>)
    ensures root == null <==> pts == []
    ensures root != null ==> root in S && Closed(S) && root.leaves == ArrayLeaves(g, pts)
    ensures root != null ==> 1 <= |root.leaves| && root.height <= CeilLog8(|root.leaves|)
    ensures forall n :: n in S ==> fresh(n) && fresh(n.nodes) && n.numNodes <= n.nodes.Length
    ensures forall n :: n in S ==> n.numNodes == 0 || 2 <= n.numNodes <= CIRC_NODE_SIZE
    ensures IsGeometry(g) && (forall n :: n in S && 0 < n.numNodes ==> NeverSlips(g, Circles(n.Children()))) ==>
              Covering(g, S)
  {
    if |pts| < 1 {
      return null, {};
    }
    if |pts| == 1 {
      root, S := SingleLeaf(g, pts[0]);
      return;
    }
    var filler, S1 := SingleLeaf(g, pts[0]);
    var nodes := new CircNode[|pts|](_ => filler);
    var j, S0 := EdgeNodes(g, pts, nodes);
    hide Closed, LeavesOf, EdgeLeaves, Below, Covering, GrownFrom;
    if j == 0 {
      root, S := SingleLeaf(g, pts[0]);
      return;
    }
    root, S := NodesMerge(g, nodes, j, S0, 0);
  }

  lemma EdgeLeavesSnoc(g: Geometry, pts: seq<Point>, i: nat)
    requires i + 1 < |pts|
    ensures EdgeLeaves(g, pts[..i + 2])
         == if Abs(g.dist(pts[i], pts[i + 1]) - 0.0) <= FP_TOLERANCE then EdgeLeaves(g, pts[..i + 1])
            else EdgeLeaves(g, pts[..i + 1]) + [EdgeLeaf(g, pts[i], pts[i + 1])]
  {
    assert pts[..i + 2][..i + 1] == pts[..i + 1];
  }

  lemma BelowLarger(S: set<CircNode>, ns: seq<CircNode>, n: CircNode)
    requires Below(S, ns, 0) && n.height == 0
    ensures Below(S + {n}, ns + [n], 0)
  {
  }

  lemma NoLeavesYet(g: Geometry, pts: seq<Point>)
    requires 1 <= |pts|
    ensures LeavesOf([]) == [] && EdgeLeaves(g, pts[..1]) == [] && Closed({}) && Covering(g, {}) && Below({}, [], 0)
  {
  }

  /** The flat list of leaf nodes, one per edge of non-zero length. */
  method EdgeNodes(g: Geometry, pts: seq<Point>, nodes: array<CircNode>) returns (j: nat, ghost S0: set<CircNode>)
    requires 2 <= |pts| == nodes.Length
    modifies nodes
    ensures j == |EdgeLeaves(g, pts)| <= nodes.Length && LeavesOf(nodes[..j]) == EdgeLeaves(g, pts)
    ensures Closed(S0) && Below(S0, nodes[..j], 0)
    ensures forall n :: n in S0 ==> fresh(n) && fresh(n.nodes) && n.nodes != nodes && n.numNodes == 0
    ensures IsGeometry(g) ==> Covering(g, S0)
  {
    hide Closed, LeavesOf, EdgeLeaves, Covering, IsGeometry, Below;
    var numEdges := |pts| - 1;
    j := 0;
    S0 := {};
    NoLeavesYet(g, pts);
    assert nodes[..0] == [];
    for i := 0 to numEdges
      invariant 0 <= j <= i && LeavesOf(nodes[..j]) == EdgeLeaves(g, pts[..i + 1])
      invariant j == |EdgeLeaves(g, pts[..i + 1])|
      invariant Closed(S0) && Below(S0, nodes[..j], 0)
      invariant forall n :: n in S0 ==> fresh(n) && fresh(n.nodes) && n.nodes != nodes && n.numNodes == 0
      invariant IsGeometry(g) ==> Covering(g, S0)
    {
      EdgeLeavesSnoc(g, pts, i);
      var diameter := g.dist(pts[i], pts[i + 1]);
      if !(Abs(diameter - 0.0) <= FP_TOLERANCE) {
        var node := new CircNode.NewLeaf(EdgeLeaf(g, pts[i], pts[i + 1]));
        ghost var before := nodes[..j];
        LeavesSnoc(before, node);
        AddLeaf(g, S0, node, pts[i], pts[i + 1]);
        BelowLarger(S0, before, node);
        nodes[j] := node;
        j := j + 1;
        assert nodes[..j] == before + [node];
        S0 := S0 + {node};
      }
    }
    assert pts[..numEdges + 1] == pts;
  }
}
