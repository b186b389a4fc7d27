/** Every node of a consistent tree has a branch hanging on it, as freeing and walking presuppose. */
module TreeShape {

  import opened NodeTree
  import opened TreeWalk

  lemma ChildBelow(p: Node, i: nat, nodes: set<Node>)
    requires Tree(nodes) && p in nodes && i < |p.children|
    ensures p.children[i] in nodes && p.children[i].parent == p && p.rank < p.children[i].rank
  {
    assert p.Keeps(nodes) && p.Slot(p.children, i);
    assert p.children[i].Home(nodes);
  }

  /** The branch of a node; top bounds every rank. */
  ghost function Grow(n: Node, nodes: set<Node>, top: nat): Branch
    requires Tree(nodes) && n in nodes && forall x <- nodes :: x.rank < top
    reads nodes
    decreases top - n.rank, |n.children| + 1
  {
    Branch(n, GrowAll(n, 0, nodes, top))
  }

  ghost function GrowAll(p: Node, i: nat, nodes: set<Node>, top: nat): (ts: seq<Branch>)
    requires Tree(nodes) && p in nodes && i <= |p.children| && forall x <- nodes :: x.rank < top
    reads nodes
    ensures |ts| == |p.children| - i
    decreases top - p.rank, |p.children| - i
  {
    if i == |p.children| then []
    else
      ChildBelow(p, i, nodes);
      [Grow(p.children[i], nodes, top)] + GrowAll(p, i + 1, nodes, top)
  }

  lemma {:induction false} GrowAllAt(p: Node, i: nat, k: nat, nodes: set<Node>, top: nat)
    requires Tree(nodes) && p in nodes && i + k < |p.children| && forall x <- nodes :: x.rank < top
    ensures p.children[i + k] in nodes && GrowAll(p, i, nodes, top)[k] == Grow(p.children[i + k], nodes, top)
    decreases k
  {
    ChildBelow(p, i, nodes);
    if k > 0 {
      GrowAllAt(p, i + 1, k - 1, nodes, top);
    }
  }

  /** The pointers are those of the branch. */
  lemma {:induction false} GrownMatches(n: Node, nodes: set<Node>, top: nat)
    requires Tree(nodes) && n in nodes && forall x <- nodes :: x.rank < top
    ensures Matches(Grow(n, nodes, top))
    decreases top - n.rank
  {
    var t := Grow(n, nodes, top);
    assert n.Keeps(nodes);
    forall i | 0 <= i < |t.kids|
      ensures t.kids[i].node == n.children[i] && n.children[i].parent == n && Matches(t.kids[i]) && Leads(t.kids, i, null) {
      ChildBelow(n, i, nodes);
      GrowAllAt(n, 0, i, nodes, top);
      if i + 1 < |t.kids| {
        GrowAllAt(n, 0, i + 1, nodes, top);
      }
      assert n.Slot(n.children, i);
      GrownMatches(n.children[i], nodes, top);
    }
  }

  // A lineage holds the parents of its members.
  lemma {:induction false} LineageUp(x: Node, a: Node, nodes: set<Node>)
    requires Tree(nodes) && x in nodes && a in Lineage(x, nodes) && a.parent != null
    ensures a.parent in Lineage(x, nodes)
    decreases x.rank
  {
    assert x.Home(nodes) && a.Home(nodes);
    if x != a {
      LineageUp(x.parent, a, nodes);
    }
  }

  lemma {:induction false} LineageRank(x: Node, a: Node, nodes: set<Node>)
    requires Tree(nodes) && x in nodes && a in Lineage(x, nodes)
    ensures a == x || a.rank < x.rank
    decreases x.rank
  {
    assert x.Home(nodes);
    if x != a {
      LineageRank(x.parent, a, nodes);
    }
  }

  // Two members of a lineage with one parent are the same.
  lemma {:induction false} OneWayUp(x: Node, a: Node, b: Node, nodes: set<Node>)
    requires Tree(nodes) && x in nodes && a in Lineage(x, nodes) && b in Lineage(x, nodes)
    requires a.parent != null && a.parent == b.parent
    ensures a == b
    decreases x.rank
  {
    assert x.Home(nodes) && a.Home(nodes) && b.Home(nodes);
    if x != a && x != b {
      OneWayUp(x.parent, a, b, nodes);
    } else if a != b {
      LineageRank(a.parent, if x == a then b else a, nodes);
    }
  }

  // The step of a lineage below one of its members.
  lemma {:induction false} StepBelow(x: Node, a: Node, nodes: set<Node>) returns (c: Node)
    requires Tree(nodes) && x in nodes && a in Lineage(x, nodes) && a != x
    ensures c in Lineage(x, nodes) && c.parent == a
    decreases x.rank
  {
    assert x.Home(nodes);
    c := x;
    if x.parent != a {
      c := StepBelow(x.parent, a, nodes);
    }
  }

  /** The branch holds exactly the nodes that have n above them. */
  lemma {:induction false} GrownHolds(n: Node, nodes: set<Node>, top: nat, x: Node)
    requires Tree(nodes) && n in nodes && x in nodes && forall y <- nodes :: y.rank < top
    ensures x in Preorder(Grow(n, nodes, top)) <==> n in Lineage(x, nodes)
    decreases top - n.rank, |n.children| + 1
  {
    GrownAllHold(n, 0, nodes, top, x);
    if n in Lineage(x, nodes) && x != n {
      var c := StepBelow(x, n, nodes);
      assert c.Home(nodes);
      assert c == n.children[Position(n.children, c)];
    }
    if c :| c in n.children && c in Lineage(x, nodes) {
      ChildBelow(n, Position(n.children, c), nodes);
      LineageUp(x, c, nodes);
    }
  }

  lemma {:induction false} GrownAllHold(p: Node, i: nat, nodes: set<Node>, top: nat, x: Node)
    requires Tree(nodes) && p in nodes && x in nodes && i <= |p.children| && forall y <- nodes :: y.rank < top
    ensures x in PreorderAll(GrowAll(p, i, nodes, top)) <==> exists k :: i <= k < |p.children| && p.children[k] in Lineage(x, nodes)
    decreases top - p.rank, |p.children| - i
  {
    if i < |p.children| {
      ChildBelow(p, i, nodes);
      GrownHolds(p.children[i], nodes, top, x);
      GrownAllHold(p, i + 1, nodes, top, x);
    }
  }

  lemma {:induction false} GrownInTree(p: Node, i: nat, nodes: set<Node>, top: nat)
    requires Tree(nodes) && p in nodes && i <= |p.children| && forall y <- nodes :: y.rank < top
    ensures forall x <- PreorderAll(GrowAll(p, i, nodes, top)) :: x in nodes
    decreases top - p.rank, |p.children| - i
  {
    if i < |p.children| {
      ChildBelow(p, i, nodes);
      GrownInTree(p.children[i], 0, nodes, top);
      GrownInTree(p, i + 1, nodes, top);
    }
  }

  /** No node stands twice in a branch. */
  lemma {:induction false} GrownNoDup(n: Node, nodes: set<Node>, top: nat)
    requires Tree(nodes) && n in nodes && forall y <- nodes :: y.rank < top
    ensures NoDup(Preorder(Grow(n, nodes, top)))
    decreases top - n.rank, |n.children| + 1
  {
    var below := PreorderAll(GrowAll(n, 0, nodes, top));
    GrownAllNoDup(n, 0, nodes, top);
    if n in below {
      GrownAllHold(n, 0, nodes, top, n);
      var k :| 0 <= k < |n.children| && n.children[k] in Lineage(n, nodes);
      ChildBelow(n, k, nodes);
      LineageRank(n, n.children[k], nodes);
    }
    NoDupSplit([n], below);
  }

  lemma {:induction false} GrownAllNoDup(p: Node, i: nat, nodes: set<Node>, top: nat)
    requires Tree(nodes) && p in nodes && i <= |p.children| && forall y <- nodes :: y.rank < top
    ensures NoDup(PreorderAll(GrowAll(p, i, nodes, top)))
    decreases top - p.rank, |p.children| - i
  {
    if i < |p.children| {
      ChildBelow(p, i, nodes);
      var c := p.children[i];
      var (first, rest) := (Preorder(Grow(c, nodes, top)), PreorderAll(GrowAll(p, i + 1, nodes, top)));
      GrownNoDup(c, nodes, top);
      GrownAllNoDup(p, i + 1, nodes, top);
      GrownInTree(p, i, nodes, top);
      forall x | x in first ensures x !in rest {
        assert x in first + rest;
        GrownHolds(c, nodes, top, x);
        if x in rest {
          BelowOneChild(p, i, nodes, top, x);
        }
      }
      NoDupSplit(first, rest);
    }
  }

  lemma BelowOneChild(p: Node, i: nat, nodes: set<Node>, top: nat, x: Node)
    requires Tree(nodes) && p in nodes && x in nodes && i < |p.children| && forall y <- nodes :: y.rank < top
    requires p.children[i] in Lineage(x, nodes)
    ensures x !in PreorderAll(GrowAll(p, i + 1, nodes, top))
  {
    GrownAllHold(p, i + 1, nodes, top, x);
    forall k | i + 1 <= k < |p.children| ensures p.children[k] !in Lineage(x, nodes) {
      ChildBelow(p, i, nodes);
      ChildBelow(p, k, nodes);
      assert p.Keeps(nodes);
      SlotsDiffer(p, p.children, i, k);
      if p.children[k] in Lineage(x, nodes) {
        OneWayUp(x, p.children[i], p.children[k], nodes);
      }
    }
  }

  lemma {:induction false} RankBound(nodes: set<Node>) returns (top: nat)
    ensures forall x <- nodes :: x.rank < top
  {
    top := 0;
    if x :| x in nodes {
      var rest := RankBound(nodes - {x});
      top := if x.rank < rest then rest else x.rank + 1;
    }
  }

  /** cmark_node_free: the node is unlinked, and it and exactly what lies below it are freed, each once.
      No parent but the node's own changes, so the lineages are those from before up to the node. */
  method Free(node: Node, ghost nodes: set<Node>) returns (freed: seq<Node>)
    requires Tree(nodes) && node in nodes
    modifies nodes`firstChild, nodes`lastChild, nodes`children, nodes`next, nodes`prev, node`parent
    ensures NoDup(freed)
    ensures forall x <- freed :: x in nodes
    ensures forall x <- nodes :: x in freed <==> node in Lineage(x, nodes)
    ensures Tree(nodes - set x <- freed)
    ensures forall n <- nodes :: n !in freed ==> n.children == Less(old(n.children), node)
    ensures old(node.children) == [] ==> freed == [node]
  {
    Neighbours(node, nodes);
    Unlink(node, nodes);
    ghost var top := RankBound(nodes);
    ghost var t := Grow(node, nodes, top);
    GrownMatches(node, nodes, top);
    GrownNoDup(node, nodes, top);
    GrownInTree(node, 0, nodes, top);
    forall x | x in nodes ensures x in Preorder(t) <==> node in Lineage(x, nodes) {
      GrownHolds(node, nodes, top, x);
    }
    assert node.Home(nodes);
    ghost var rest := nodes - set x <- Preorder(t);
    forall n, i | n in rest && 0 <= i < |n.children| ensures n.children[i] in rest {
      RestHolds(node, n, i, nodes);
    }
    forall n | n in rest && n.parent != null ensures n.parent in rest {
      assert n.Home(nodes);
    }
    RestIsTree(nodes, rest);
    label Unlinked:
    freed := FreeNodes(node, t);
    forall n | n in rest ensures n.Keeps(rest) {
      assert old@Unlinked(n.Keeps(rest));
      forall i | 0 <= i < |n.children| ensures n.Slot(n.children, i) {
        assert old@Unlinked(n.Slot(n.children, i));
      }
    }
    forall n | n in rest ensures n.Home(rest) {
      assert old@Unlinked(n.Home(rest));
    }
  }

  // A child of a node that is left is left too.
  lemma RestHolds(node: Node, n: Node, i: nat, nodes: set<Node>)
    requires Tree(nodes) && node in nodes && n in nodes && node.parent == null && i < |n.children| && node !in Lineage(n, nodes)
    ensures n.children[i] in nodes && node !in Lineage(n.children[i], nodes)
  {
    ChildBelow(n, i, nodes);
  }

  // Nodes closed under parents and children are a tree.
  lemma RestIsTree(nodes: set<Node>, rest: set<Node>)
    requires Tree(nodes) && rest <= nodes
    requires forall n <- rest :: forall i :: 0 <= i < |n.children| ==> n.children[i] in rest
    requires forall n <- rest :: n.parent != null ==> n.parent in rest
    ensures Tree(rest)
  {
    forall n | n in rest ensures n.Keeps(rest) && n.Home(rest) {
      assert n.Keeps(nodes) && n.Home(nodes);
    }
  }
}
