/** cmark_node_check of node.c: the stackless walk that counts and repairs the pointers that disagree with the lists of children. */
module TreeCheck {

  import opened NodeTree
  import opened TreeWalk
  import opened TreeShape

  // ---------- what is checked ----------

  /** The first children and next siblings are those of the branch; nothing is said of the other pointers. */
  ghost predicate Skeleton(t: Branch)
    reads (set n <- Preorder(t))`firstChild, (set n <- PreorderAll(t.kids))`next
  {
    Listed(t.kids);
    t.node.firstChild == NodeAt(t.kids, 0) && Chained(t.kids, null) && forall k <- t.kids :: Skeleton(k)
  }

  // A stop of the walk: a node with the pointers it should have. Its last child matters only when it is left.
  datatype Stop = Down(x: Node, prev: Node?, parent: Node?) | Up(x: Node, prev: Node?, parent: Node?, last: Node?)

  function Route(t: Branch, prev: Node?, parent: Node?): (s: seq<Stop>)
    ensures s != [] && s[0] == Down(t.node, prev, parent)
    ensures s[|s| - 1] == Up(t.node, prev, parent, NodeAt(t.kids, |t.kids| - 1))
  {
    [Down(t.node, prev, parent)] + RouteAll(t.kids, null, t.node) + [Up(t.node, prev, parent, NodeAt(t.kids, |t.kids| - 1))]
  }

  function RouteAll(ts: seq<Branch>, prev: Node?, parent: Node?): seq<Stop> {
    if ts == [] then [] else Route(ts[0], prev, parent) + RouteAll(ts[1..], ts[0].node, parent)
  }

  // The pointers of a stop are as they should be; the last child of a childless node is never looked at.
  ghost predicate Agrees(s: Stop)
    reads {s.x}`prev, {s.x}`parent, {s.x}`lastChild
  {
    match s
    case Down(x, prev, parent) => x.prev == prev && x.parent == parent
    case Up(x, _, _, last) => last != null ==> x.lastChild == last
  }

  /** Previous siblings, parents and last children agree with the branch below its root. */
  ghost predicate Agree(t: Branch)
    reads (set n <- Preorder(t))`lastChild, (set n <- Preorder(t))`prev, (set n <- Preorder(t))`parent
    decreases t, 1
  {
    (t.kids != [] ==> t.node.lastChild == t.kids[|t.kids| - 1].node) && KidsAgree(t.kids, null, t.node)
  }

  ghost predicate KidsAgree(ts: seq<Branch>, prev: Node?, parent: Node)
    reads (set n <- PreorderAll(ts))`lastChild, (set n <- PreorderAll(ts))`prev, (set n <- PreorderAll(ts))`parent
    decreases ts, 0
  {
    assert ts != [] ==> PreorderAll(ts) == Preorder(ts[0]) + PreorderAll(ts[1..]);
    ts != [] ==> ts[0].node.prev == prev && ts[0].node.parent == parent && Agree(ts[0]) && KidsAgree(ts[1..], ts[0].node, parent)
  }

  ghost predicate AllAgree(s: seq<Stop>)
    reads set p <- s :: p.x
  {
    forall p <- s :: Agrees(p)
  }

  // ---------- the route of the walk ----------

  // Where the walk goes from a stop.
  ghost predicate Goes(s: seq<Stop>, k: nat)
    requires k + 1 < |s|
    reads {s[k].x}`firstChild, {s[k].x}`next
  {
    match s[k]
    case Down(x, prev, parent) => s[k + 1] == if x.firstChild == null then Up(x, prev, parent, null) else Down(x.firstChild, null, x)
    case Up(x, _, parent, _) =>
      if x.next != null then s[k + 1] == Down(x.next, x, parent)
      else s[k + 1].Up? && s[k + 1].x == parent && s[k + 1].last == x
  }

  ghost predicate AllGo(s: seq<Stop>)
    reads (set p <- s :: p.x)`firstChild, (set p <- s :: p.x)`next
  {
    forall k {:trigger Goes(s, k)} :: 0 <= k < |s| - 1 ==> Goes(s, k)
  }

  lemma GoJoin(a: seq<Stop>, b: seq<Stop>)
    requires a != [] && b != [] && AllGo(a) && AllGo(b) && Goes([a[|a| - 1], b[0]], 0)
    ensures AllGo(a + b)
  {
    forall k | 0 <= k < |a + b| - 1 ensures Goes(a + b, k) {
      if k < |a| - 1 {
        assert Goes(a, k);
      } else if k >= |a| {
        assert Goes(b, k - |a|);
      }
    }
  }

  lemma {:induction false} RouteGoes(t: Branch, prev: Node?, parent: Node?)
    requires Skeleton(t)
    ensures AllGo(Route(t, prev, parent))
    decreases t, 1
  {
    var (down, up) := (Down(t.node, prev, parent), Up(t.node, prev, parent, NodeAt(t.kids, |t.kids| - 1)));
    if t.kids == [] {
      LeafGoes(down, up);
      assert Route(t, prev, parent) == [down, up];
    } else {
      KidsGo(t, 0, up);
      assert t.kids[0..] == t.kids;
      var below := RouteAll(t.kids, null, t.node) + [up];
      FirstGoes(down, below);
      assert Route(t, prev, parent) == [down] + below;
    }
  }

  lemma LeafGoes(down: Stop, up: Stop)
    requires down.Down? && down.x.firstChild == null && up == Up(down.x, down.prev, down.parent, null)
    ensures AllGo([down, up])
  {
    assert Goes([down, up], 0);
  }

  lemma FirstGoes(down: Stop, below: seq<Stop>)
    requires down.Down? && below != [] && AllGo(below) && down.x.firstChild != null && below[0] == Down(down.x.firstChild, null, down.x)
    ensures AllGo([down] + below)
  {
    GoJoin([down], below);
  }

  // From a child on, through its later siblings, and up again.
  lemma {:induction false} KidsGo(t: Branch, j: nat, up: Stop)
    requires Skeleton(t) && j < |t.kids| && up.Up? && up.x == t.node && up.last == NodeAt(t.kids, |t.kids| - 1)
    ensures var s := RouteAll(t.kids[j..], NodeAt(t.kids, j - 1), t.node) + [up];
            s[0] == Down(t.kids[j].node, NodeAt(t.kids, j - 1), t.node) && AllGo(s)
    decreases t, 0, |t.kids| - j
  {
    var k := t.kids[j];
    assert k in t.kids && Leads(t.kids, j, null);
    var here := Route(k, NodeAt(t.kids, j - 1), t.node);
    RouteGoes(k, NodeAt(t.kids, j - 1), t.node);
    assert t.kids[j..][1..] == t.kids[j + 1..];
    var rest := RouteAll(t.kids[j + 1..], k.node, t.node) + [up];
    if j + 1 < |t.kids| {
      KidsGo(t, j + 1, up);
    }
    GoJoin(here, rest);
    assert RouteAll(t.kids[j..], NodeAt(t.kids, j - 1), t.node) + [up] == here + rest;
  }

  // ---------- no stop contradicts another ----------

  ghost predicate Alike(p: Stop, q: Stop) {
    p.x == q.x ==> p.prev == q.prev && p.parent == q.parent && (p.Up? && q.Up? ==> p.last == q.last)
  }

  ghost predicate Consistent(s: seq<Stop>) {
    forall p, q | p in s && q in s :: Alike(p, q)
  }

  lemma {:induction false} RouteNodes(t: Branch, prev: Node?, parent: Node?)
    ensures forall p <- Route(t, prev, parent) :: p.x in Preorder(t)
    decreases t, 1
  {
    RouteAllNodes(t.kids, null, t.node);
  }

  lemma {:induction false} RouteAllNodes(ts: seq<Branch>, prev: Node?, parent: Node?)
    ensures forall p <- RouteAll(ts, prev, parent) :: p.x in PreorderAll(ts)
    decreases ts, 0
  {
    if ts != [] {
      RouteNodes(ts[0], prev, parent);
      RouteAllNodes(ts[1..], ts[0].node, parent);
    }
  }

  lemma ConsistentJoin(a: seq<Stop>, b: seq<Stop>)
    requires Consistent(a) && Consistent(b) && forall p, q | p in a && q in b :: p.x != q.x
    ensures Consistent(a + b)
  {
  }

  lemma {:induction false} RouteConsistent(t: Branch, prev: Node?, parent: Node?)
    requires NoDup(Preorder(t))
    ensures Consistent(Route(t, prev, parent))
    decreases t, 1
  {
    NoDupSplit([t.node], PreorderAll(t.kids));
    RouteAllConsistent(t.kids, null, t.node);
    RouteAllNodes(t.kids, null, t.node);
    var (below, ends) := (RouteAll(t.kids, null, t.node),
                          [Down(t.node, prev, parent), Up(t.node, prev, parent, NodeAt(t.kids, |t.kids| - 1))]);
    ConsistentJoin(below, ends);
    forall p | p in Route(t, prev, parent) ensures p in below + ends {
    }
  }

  lemma {:induction false} RouteAllConsistent(ts: seq<Branch>, prev: Node?, parent: Node?)
    requires NoDup(PreorderAll(ts))
    ensures Consistent(RouteAll(ts, prev, parent))
    decreases ts, 0
  {
    if ts != [] {
      NoDupSplit(Preorder(ts[0]), PreorderAll(ts[1..]));
      RouteConsistent(ts[0], prev, parent);
      RouteAllConsistent(ts[1..], ts[0].node, parent);
      RouteNodes(ts[0], prev, parent);
      RouteAllNodes(ts[1..], ts[0].node, parent);
      ConsistentJoin(Route(ts[0], prev, parent), RouteAll(ts[1..], ts[0].node, parent));
    }
  }

  // Every node that is left has been entered before.
  ghost predicate WasEntered(s: seq<Stop>, k: nat)
    requires k < |s|
  {
    s[k].Up? ==> Down(s[k].x, s[k].prev, s[k].parent) in s[..k]
  }

  ghost predicate Entered(s: seq<Stop>) {
    forall k {:trigger WasEntered(s, k)} :: 0 <= k < |s| ==> WasEntered(s, k)
  }

  lemma EnteredJoin(a: seq<Stop>, b: seq<Stop>)
    requires Entered(a) && Entered(b)
    ensures Entered(a + b)
  {
    forall k | 0 <= k < |a + b| ensures WasEntered(a + b, k) {
      if k < |a| {
        assert WasEntered(a, k) && (a + b)[..k] == a[..k];
      } else {
        assert WasEntered(b, k - |a|) && (a + b)[..k] == a + b[..k - |a|];
      }
    }
  }

  lemma {:induction false} RouteEntered(t: Branch, prev: Node?, parent: Node?)
    ensures Entered(Route(t, prev, parent))
    decreases t, 1
  {
    var s := Route(t, prev, parent);
    var (down, below) := ([Down(t.node, prev, parent)], RouteAll(t.kids, null, t.node));
    RouteAllEntered(t.kids, null, t.node);
    EnteredJoin(down, below);
    forall k | 0 <= k < |s| ensures WasEntered(s, k) {
      if k < |s| - 1 {
        assert WasEntered(down + below, k) && s[..k] == (down + below)[..k];
      } else {
        assert s[0] in s[..k];
      }
    }
  }

  lemma {:induction false} RouteAllEntered(ts: seq<Branch>, prev: Node?, parent: Node?)
    ensures Entered(RouteAll(ts, prev, parent))
    decreases ts, 0
  {
    if ts != [] {
      RouteEntered(ts[0], prev, parent);
      RouteAllEntered(ts[1..], ts[0].node, parent);
      EnteredJoin(Route(ts[0], prev, parent), RouteAll(ts[1..], ts[0].node, parent));
    }
  }

  // ---------- the stops and the branch ----------

  lemma AllAgreeJoin(a: seq<Stop>, b: seq<Stop>)
    ensures AllAgree(a + b) <==> AllAgree(a) && AllAgree(b)
  {
    if AllAgree(a + b) {
      forall p | p in a ensures Agrees(p) {
        assert p in a + b;
      }
      forall p | p in b ensures Agrees(p) {
        assert p in a + b;
      }
    }
  }

  lemma AllAgreeOne(p: Stop)
    ensures AllAgree([p]) <==> Agrees(p)
  {
    assert p in [p];
  }

  lemma {:induction false} RouteAgrees(t: Branch, prev: Node?, parent: Node?)
    ensures AllAgree(Route(t, prev, parent)) <==> t.node.prev == prev && t.node.parent == parent && Agree(t)
    decreases t, 1
  {
    var (down, up) := (Down(t.node, prev, parent), Up(t.node, prev, parent, NodeAt(t.kids, |t.kids| - 1)));
    var below := RouteAll(t.kids, null, t.node);
    RouteAllAgrees(t.kids, null, t.node);
    AllAgreeOne(down);
    AllAgreeOne(up);
    AllAgreeJoin([down], below);
    AllAgreeJoin([down] + below, [up]);
  }

  lemma {:induction false} RouteAllAgrees(ts: seq<Branch>, prev: Node?, parent: Node)
    ensures AllAgree(RouteAll(ts, prev, parent)) <==> KidsAgree(ts, prev, parent)
    decreases ts, 0
  {
    if ts != [] {
      RouteAgrees(ts[0], prev, parent);
      RouteAllAgrees(ts[1..], ts[0].node, parent);
      AllAgreeJoin(Route(ts[0], prev, parent), RouteAll(ts[1..], ts[0].node, parent));
    }
  }

  // ---------- the check ----------

  // The pointers of a node that is entered.
  method FixEntered(x: Node, prev: Node?, parent: Node?) returns (errors: nat)
    modifies x`prev, x`parent
    ensures x.prev == prev && x.parent == parent
    ensures errors == 0 <==> old(x.prev) == prev && old(x.parent) == parent
  {
    errors := 0;
    if x.prev != prev {
      x.prev := prev;
      errors := errors + 1;
    }
    if x.parent != parent {
      x.parent := parent;
      errors := errors + 1;
    }
  }

  // The stops up to k are in order.
  ghost predicate UpTo(s: seq<Stop>, k: nat)
    requires k < |s|
    reads set p <- s :: p.x
  {
    forall j {:trigger s[j]} :: 0 <= j <= k ==> Agrees(s[j])
  }

  // The checks of the next stop; no stop before it is disturbed.
  method Arrive(ghost s: seq<Stop>, ghost k: nat, x: Node, prev: Node?, parent: Node?) returns (errors: nat)
    requires k + 1 < |s| && Consistent(s) && s[k + 1] == Down(x, prev, parent) && UpTo(s, k)
    modifies x`prev, x`parent
    ensures UpTo(s, k + 1)
    ensures errors == 0 <==> old(Agrees(s[k + 1]))
    ensures errors == 0 ==> unchanged(x)
  {
    errors := FixEntered(x, prev, parent);
    forall j | 0 <= j <= k + 1 ensures Agrees(s[j]) {
      assert Alike(s[j], s[k + 1]);
      assert j <= k ==> old(Agrees(s[j]));
    }
  }

  method Return(ghost s: seq<Stop>, ghost k: nat, x: Node, last: Node) returns (errors: nat)
    requires k + 1 < |s| && Consistent(s) && s[k + 1].Up? && s[k + 1].x == x && s[k + 1].last == last && UpTo(s, k)
    modifies x`lastChild
    ensures UpTo(s, k + 1)
    ensures errors == 0 <==> old(Agrees(s[k + 1]))
    ensures errors == 0 ==> unchanged(x)
  {
    errors := 0;
    if x.lastChild != last {
      x.lastChild := last;
      errors := 1;
    }
    forall j | 0 <= j <= k + 1 ensures Agrees(s[j]) {
      assert Alike(s[j], s[k + 1]);
      assert j <= k ==> old(Agrees(s[j]));
    }
  }

  // A node that is left has its right parent by then, unless it is the root.
  lemma ParentRight(s: seq<Stop>, k: nat)
    requires k < |s| && Entered(s) && s[k].Up? && UpTo(s, k)
    ensures s[k].x.parent == s[k].parent
  {
    assert WasEntered(s, k);
    var j :| 0 <= j < k && s[j] == Down(s[k].x, s[k].prev, s[k].parent);
    assert Agrees(s[j]);
  }

  // Only at the end the root is left.
  lemma RootLast(t: Branch, prev: Node?, parent: Node?, k: nat)
    requires NoDup(Preorder(t)) && k < |Route(t, prev, parent)| && Route(t, prev, parent)[k].Up? && Route(t, prev, parent)[k].x == t.node
    ensures k == |Route(t, prev, parent)| - 1
  {
    var (s, below) := (Route(t, prev, parent), RouteAll(t.kids, null, t.node));
    NoDupSplit([t.node], PreorderAll(t.kids));
    RouteAllNodes(t.kids, null, t.node);
    assert s == [s[0]] + below + [s[|s| - 1]];
  }

  lemma WholeRoute(t: Branch, prev: Node?, parent: Node?)
    ensures UpTo(Route(t, prev, parent), |Route(t, prev, parent)| - 1) <==> t.node.prev == prev && t.node.parent == parent && Agree(t)
  {
    var s := Route(t, prev, parent);
    RouteAgrees(t, prev, parent);
    if UpTo(s, |s| - 1) {
      forall p | p in s ensures Agrees(p) {
        var j :| 0 <= j < |s| && s[j] == p;
      }
    }
  }

  // What the whole walk depends on.
  ghost predicate Walks(s: seq<Stop>, nodes: set<Node>)
    reads nodes`firstChild, nodes`next
  {
    (forall p <- s :: p.x in nodes) && AllGo(s) && Consistent(s) && Entered(s)
  }

  // One turn of the loop.
  method Turn(ghost s: seq<Stop>, ghost k: nat, cur: Node, descend: bool, node: Node, ghost nodes: set<Node>)
    returns (next: Node, down: bool, errors: nat)
    requires Walks(s, nodes) && k < |s| && s[k].x == cur && (descend <==> s[k].Down?) && UpTo(s, k)
    requires s[|s| - 1].x == node && s[|s| - 1].Up? && (descend || cur != node)
    modifies nodes`prev, nodes`parent, nodes`lastChild
    ensures k + 1 < |s| && s[k + 1].x == next && (down <==> s[k + 1].Down?) && UpTo(s, k + 1)
    ensures errors == 0 <==> old(Agrees(s[k + 1]))
    ensures errors == 0 ==> unchanged(nodes)
  {
    assert k + 1 < |s|;
    assert Goes(s, k) && s[k + 1] in s;
    errors := 0;
    if descend {
      if cur.firstChild != null {
        errors := Arrive(s, k, cur.firstChild, null, cur);
        return cur.firstChild, true, errors;
      }
      return cur, false, 0;
    }
    ParentRight(s, k);
    if cur.next != null {
      errors := Arrive(s, k, cur.next, cur, cur.parent);
      return cur.next, true, errors;
    }
    errors := Return(s, k, cur.parent, cur);
    return cur.parent, false, errors;
  }

  /** cmark_node_check: zero errors if and only if previous siblings, parents and last children agree with the lists of
      children below the node, childless nodes aside; afterwards they always do. */
  method Check(node: Node, ghost t: Branch, ghost nodes: set<Node>) returns (errors: nat)
    requires t.node == node && Skeleton(t) && NoDup(Preorder(t)) && nodes == set n <- Preorder(t)
    modifies nodes`prev, nodes`parent, nodes`lastChild
    ensures errors == 0 <==> old(Agree(t))
    ensures Agree(t)
    ensures errors == 0 ==> unchanged(nodes)
  {
    ghost var s := Route(t, node.prev, node.parent);
    RouteGoes(t, node.prev, node.parent);
    RouteConsistent(t, node.prev, node.parent);
    RouteEntered(t, node.prev, node.parent);
    RouteNodes(t, node.prev, node.parent);
    WholeRoute(t, node.prev, node.parent);
    errors := 0;
    var cur := node;
    var descend := true;
    ghost var k: nat := 0;
    while descend || cur != node
      invariant k < |s| && s[k].x == cur && (descend <==> s[k].Down?)
      invariant UpTo(s, k)
      invariant errors == 0 <==> old(UpTo(s, k))
      invariant errors == 0 ==> unchanged(nodes)
      decreases |s| - k
    {
      var more;
      cur, descend, more := Turn(s, k, cur, descend, node, nodes);
      errors := errors + more;
      k := k + 1;
    }
    RootLast(t, old(node.prev), old(node.parent), k);
    WholeRoute(t, old(node.prev), old(node.parent));
  }

  /** Broken pointers that pass: a node without children whose last child is another node. */
  method StaleLastChild() returns (node: Node, other: Node, errors: nat)
    ensures fresh(node) && fresh(other) && node != other
    ensures node.firstChild == null && node.lastChild == other && !Tree({node, other}) && errors == 0
  {
    node := new Node(Document);
    other := new Node(Document);
    node.lastChild := other;
    ghost var t := Branch(node, []);
    assert Preorder(t) == [node];
    errors := Check(node, t, {node});
    assert node.lastChild == other && !node.Keeps({node, other});
  }

  // ---------- consistent trees ----------

  lemma {:induction false} GrownSkeleton(t: Branch)
    requires Matches(t)
    ensures Skeleton(t)
    decreases t
  {
    forall k | k in t.kids ensures Skeleton(k) {
      GrownSkeleton(k);
    }
  }

  lemma {:induction false} GrownAgrees(n: Node, nodes: set<Node>, top: nat)
    requires Tree(nodes) && n in nodes && forall x <- nodes :: x.rank < top
    ensures Agree(Grow(n, nodes, top))
    decreases top - n.rank, |n.children| + 1
  {
    assert n.Keeps(nodes);
    GrownAllAgree(n, 0, nodes, top);
    if n.children != [] {
      GrowAllAt(n, 0, |n.children| - 1, nodes, top);
    }
  }

  lemma {:induction false} GrownAllAgree(p: Node, i: nat, nodes: set<Node>, top: nat)
    requires Tree(nodes) && p in nodes && i <= |p.children| && forall x <- nodes :: x.rank < top
    ensures KidsAgree(GrowAll(p, i, nodes, top), At(p.children, i - 1), p)
    decreases top - p.rank, |p.children| - i
  {
    if i < |p.children| {
      ChildBelow(p, i, nodes);
      assert p.Keeps(nodes) && p.Slot(p.children, i);
      GrownAgrees(p.children[i], nodes, top);
      GrownAllAgree(p, i + 1, nodes, top);
    }
  }

  /** In a tree that every edit has kept consistent the check finds no error and changes nothing. */
  method CheckTree(node: Node, ghost nodes: set<Node>) returns (errors: nat)
    requires Tree(nodes) && node in nodes
    modifies nodes`prev, nodes`parent, nodes`lastChild
    ensures errors == 0 && unchanged(nodes)
  {
    ghost var top := RankBound(nodes);
    ghost var t := Grow(node, nodes, top);
    GrownMatches(node, nodes, top);
    GrownSkeleton(t);
    GrownAgrees(node, nodes, top);
    GrownNoDup(node, nodes, top);
    GrownInTree(node, 0, nodes, top);
    errors := Check(node, t, set n <- Preorder(t));
  }
}
