/** The document tree of node.c: five pointers a node, kept consistent by every edit. */
module NodeTree {

  datatype Kind = Document | BlockQuote | List | Item | CodeBlock | HtmlBlock | Paragraph | Heading | ThematicBreak
                | Text | SoftBreak | LineBreak | Code | HtmlInline | Emph | Strong | Link | Image

  predicate Inline(kind: Kind) {
    kind.Text? || kind.SoftBreak? || kind.LineBreak? || kind.Code? || kind.HtmlInline? || kind.Emph? || kind.Strong?
    || kind.Link? || kind.Image?
  }

  // cmark_node_can_contain_type, for the core types
  predicate MayHold(parent: Kind, child: Kind) {
    match parent
    case Document | BlockQuote | Item => !Inline(child) && child != Item && child != Document
    case List => child == Item
    case Paragraph | Heading | Emph | Strong | Link | Image => Inline(child)
    case _ => false
  }

  class Node {
    const kind: Kind
    var next: Node?
    var prev: Node?
    var parent: Node?
    var firstChild: Node?
    var lastChild: Node?
    var literal: string
    ghost var children: seq<Node>
    // Grows from parents to children.
    ghost var rank: nat

    constructor (kind: Kind)
      ensures this.kind == kind && next == prev == parent == firstChild == lastChild == null && children == []
    {
      this.kind, next, prev, parent, firstChild, lastChild, literal, children := kind, null, null, null, null, null, "", [];
    }

    // The child at i stands between its neighbours.
    ghost predicate Slot(c: seq<Node>, i: nat)
      requires i < |c|
      reads {c[i]}`parent, {c[i]}`prev, {c[i]}`next
    {
      c[i].parent == this && c[i].prev == At(c, i - 1) && c[i].next == At(c, i + 1)
    }

    /** The pointers below a node are those of its list of children. */
    ghost predicate Wired(c: seq<Node>)
      reads this`firstChild, this`lastChild, c`parent, c`prev, c`next
    {
      && firstChild == At(c, 0) && lastChild == At(c, |c| - 1)
      && forall i {:trigger Slot(c, i)} :: 0 <= i < |c| ==> Slot(c, i)
    }

    ghost predicate Keeps(nodes: set<Node>)
      requires this in nodes
      reads this`children, this`firstChild, this`lastChild, nodes`parent, nodes`prev, nodes`next
    {
      (forall i :: 0 <= i < |children| ==> children[i] in nodes) && Wired(children)
    }

    // A node hangs in its parent's list, or stands alone.
    ghost predicate Home(nodes: set<Node>)
      requires this in nodes
      reads this`parent, this`prev, this`next, nodes`children, nodes`rank
    {
      if parent == null then prev == null && next == null
      else parent in nodes && this in parent.children && parent.rank < rank && MayHold(parent.kind, kind)
    }
  }

  function At(c: seq<Node>, i: int): Node? {
    if 0 <= i < |c| then c[i] else null
  }

  /** The five pointers agree everywhere, and no node is above itself. */
  ghost predicate Tree(nodes: set<Node>)
    reads nodes
  {
    && (forall n {:trigger n.Home(nodes)} :: n in nodes ==> n.Home(nodes))
    && (forall n {:trigger n.Keeps(nodes)} :: n in nodes ==> n.Keeps(nodes))
  }

  // No child stands in a list twice.
  lemma {:induction false} SlotsDiffer(p: Node, c: seq<Node>, i: nat, j: nat)
    requires p.Wired(c) && i < j < |c|
    ensures c[i] != c[j]
    decreases i
  {
    if c[i] == c[j] {
      assert p.Slot(c, i) && p.Slot(c, j);
      if i > 0 {
        SlotsDiffer(p, c, i - 1, j - 1);
      }
    }
  }

  lemma ChildOf(p: Node, c: seq<Node>, x: Node)
    requires p.Wired(c) && x in c
    ensures x.parent == p
    ensures x.prev != null ==> x.prev in c && x.prev.parent == p
    ensures x.next != null ==> x.next in c && x.next.parent == p
  {
    var k := Position(c, x);
    assert p.Slot(c, k);
    if k > 0 {
      assert p.Slot(c, k - 1);
    }
    if k + 1 < |c| {
      assert p.Slot(c, k + 1);
    }
  }

  // The child at k and its neighbours stand nowhere else.
  lemma Around(p: Node, c: seq<Node>, k: nat)
    requires p.Wired(c) && k < |c|
    ensures forall i :: 0 <= i < |c| && i != k ==> c[i] != c[k]
    ensures forall i :: 0 <= i < |c| && i != k - 1 ==> c[i] != At(c, k - 1)
    ensures forall i :: 0 <= i < |c| && i != k + 1 ==> c[i] != At(c, k + 1)
  {
    forall i, j | 0 <= i < |c| && k - 1 <= j <= k + 1 && 0 <= j < |c| && i != j ensures c[i] != c[j] {
      if i < j {
        SlotsDiffer(p, c, i, j);
      } else {
        SlotsDiffer(p, c, j, i);
      }
    }
  }

  function Position(c: seq<Node>, x: Node): (k: nat)
    requires x in c
    ensures k < |c| && c[k] == x
  {
    if c[0] == x then 0 else Position(c[1..], x) + 1
  }

  function Cut(c: seq<Node>, k: nat): seq<Node>
    requires k < |c|
  {
    c[..k] + c[k + 1..]
  }

  function Inserted(c: seq<Node>, k: nat, x: Node): (r: seq<Node>)
    requires k <= |c|
    ensures x in r && forall n <- c :: n in r
  {
    assert c == c[..k] + c[k..];
    c[..k] + [x] + c[k..]
  }

  /** A node and all above it. */
  ghost function Lineage(n: Node, nodes: set<Node>): (line: set<Node>)
    requires n in nodes
    reads nodes`parent, nodes`rank
    ensures n in line && line <= nodes
    decreases n.rank
  {
    if n.parent == null || n.parent !in nodes || n.parent.rank >= n.rank then {n} else {n} + Lineage(n.parent, nodes)
  }

  /** Everything is in place but x, which stands in no list; its own pointers are stale. */
  ghost predicate Loose(nodes: set<Node>, x: Node)
    reads nodes
  {
    && (forall n {:trigger n.Home(nodes)} :: n in nodes && n != x ==> n.Home(nodes))
    && (forall n {:trigger n.Keeps(nodes)} :: n in nodes ==> n.Keeps(nodes) && x !in n.children)
  }

  // ---------- the edits ----------

  /** S_can_contain: the kinds fit, and the child is neither the node nor above it. */
  method CanContain(node: Node, child: Node, ghost nodes: set<Node>) returns (fits: bool)
    requires Tree(nodes) && node in nodes && child in nodes
    ensures fits <==> MayHold(node.kind, child.kind) && child !in Lineage(node, nodes)
  {
    var cur: Node? := node;
    while cur != null
      invariant cur != null ==> cur in nodes && (child in Lineage(node, nodes) <==> child in Lineage(cur, nodes))
      invariant cur == null ==> child !in Lineage(node, nodes)
      decreases if cur == null then 0 else cur.rank + 1
    {
      if cur == child {
        return false;
      }
      assert cur.Home(nodes);
      cur := cur.parent;
    }
    return MayHold(node.kind, child.kind);
  }

  ghost function Only(n: Node?): set<Node> {
    if n == null then {} else {n}
  }

  // The list of a node's children without x.
  ghost function Less(c: seq<Node>, x: Node): seq<Node> {
    if x in c then Cut(c, Position(c, x)) else c
  }

  lemma LessKeeps(c: seq<Node>, x: Node, n: Node)
    requires n in c && n != x
    ensures n in Less(c, x)
  {
    if x in c {
      var k := Position(c, x);
      assert c == c[..k] + [x] + c[k + 1..];
    }
  }

  lemma LessWithin(c: seq<Node>, x: Node, nodes: set<Node>)
    requires forall i :: 0 <= i < |c| ==> c[i] in nodes
    ensures forall i :: 0 <= i < |Less(c, x)| ==> Less(c, x)[i] in nodes
  {
  }

  // S_node_unlink, of a node that has a parent
  method LetGo(node: Node)
    requires node.parent != null && node != node.parent && node in node.parent.children
    requires node.parent.Wired(node.parent.children) && node.parent !in node.parent.children
    modifies node.parent`firstChild, node.parent`lastChild, node.parent`children
    modifies Only(node.prev)`next, Only(node.next)`prev
    ensures node.parent.children == Less(old(node.parent.children), node)
    ensures node.parent.Wired(node.parent.children)
    ensures old(node.prev) != null ==> old(node.prev).next == old(node.next) && node.parent.firstChild == old(node.parent.firstChild)
  {
    ghost var c := node.parent.children;
    ghost var k := Position(c, node);
    assert node.parent.Slot(c, k);
    Around(node.parent, c, k);
    if node.prev != null {
      node.prev.next := node.next;
    }
    if node.next != null {
      node.next.prev := node.prev;
    }
    var parent := node.parent;
    if parent.firstChild == node {
      parent.firstChild := node.next;
    }
    if parent.lastChild == node {
      parent.lastChild := node.prev;
    }
    parent.children := Cut(c, k);
    forall i | 0 <= i < |c| - 1 ensures parent.Slot(parent.children, i) {
      assert old(node.parent.Slot(c, if i < k then i else i + 1));
    }
  }

  // The node stands in its parent's list, between neighbours with the same parent.
  ghost predicate Stands(node: Node, nodes: set<Node>)
    requires node in nodes
    reads nodes
  {
    && node.parent != null && node.parent in nodes && node in node.parent.children && node.parent != node
    && node.parent !in node.parent.children
    && (node.prev != null ==> node.prev in nodes && node.prev != node && node.prev.parent == node.parent)
    && (node.next != null ==> node.next in nodes && node.next != node && node.next.parent == node.parent)
  }

  // Where a node with a parent stands.
  lemma Placed(node: Node, nodes: set<Node>)
    requires Tree(nodes) && node in nodes && node.parent != null
    ensures Stands(node, nodes)
    ensures node !in Less(node.parent.children, node)
    ensures forall n <- nodes :: n != node.parent ==> node !in n.children
  {
    assert node.Home(nodes);
    var p := node.parent;
    assert p.Keeps(nodes) && p.Home(nodes);
    ChildOf(p, p.children, node);
    Around(p, p.children, Position(p.children, node));
    assert p.Slot(p.children, Position(p.children, node));
    if p in p.children {
      ChildOf(p, p.children, p);
    }
    forall n | n in nodes && n != p ensures node !in n.children {
      Childless(n, node, nodes);
    }
  }

  // A node without a parent is in no list.
  lemma Childless(n: Node, x: Node, nodes: set<Node>)
    requires Tree(nodes) && n in nodes && x in nodes && x.parent != n
    ensures n.Keeps(nodes) && x !in n.children
  {
    assert n.Keeps(nodes);
    if x in n.children {
      ChildOf(n, n.children, x);
    }
  }

  // Only the parent's list changes.
  method LetGoInTree(node: Node, ghost nodes: set<Node>)
    requires forall n {:trigger n.Keeps(nodes)} :: n in nodes ==> n.Keeps(nodes)
    requires node in nodes && Stands(node, nodes)
    modifies node.parent`firstChild, node.parent`lastChild, node.parent`children, Only(node.prev)`next, Only(node.next)`prev
    ensures forall n {:trigger n.Keeps(nodes)} :: n in nodes ==> n.Keeps(nodes)
    ensures node.parent.children == Less(old(node.parent.children), node)
    ensures old(node.prev) != null ==> old(node.prev).next == old(node.next) && node.parent.firstChild == old(node.parent.firstChild)
  {
    ghost var p := node.parent;
    assert p.Keeps(nodes);
    LessWithin(p.children, node, nodes);
    LetGo(node);
    forall n | n in nodes ensures n.Keeps(nodes) {
      if n != p {
        assert old(n.Keeps(nodes));
        forall i | 0 <= i < |n.children| ensures n.Slot(n.children, i) {
          assert old(n.Slot(n.children, i));
        }
      }
    }
  }

  method UnlinkFromParent(node: Node, ghost nodes: set<Node>)
    requires Tree(nodes) && node in nodes && node.parent != null
    modifies node.parent`firstChild, node.parent`lastChild, node.parent`children, Only(node.prev)`next, Only(node.next)`prev
    ensures Loose(nodes, node)
    ensures node.parent.children == Less(old(node.parent.children), node)
    ensures old(node.prev) != null ==> old(node.prev).next == old(node.next) && node.parent.firstChild == old(node.parent.firstChild)
    ensures old(node.prev) != node && old(node.next) != node
    ensures forall n <- nodes :: n != node.parent ==> node !in n.children
  {
    Placed(node, nodes);
    LetGoInTree(node, nodes);
    forall n | n in nodes && n != node ensures n.Home(nodes) {
      assert old(n.Home(nodes));
      if n.parent != null {
        LessKeeps(old(n.parent.children), node, n);
      }
    }
  }

  lemma Neighbours(node: Node, nodes: set<Node>)
    requires Tree(nodes) && node in nodes
    ensures Only(node.parent) <= nodes && Only(node.prev) <= nodes && Only(node.next) <= nodes
  {
    assert node.Home(nodes);
    if node.parent != null {
      Placed(node, nodes);
    }
  }

  /** S_node_unlink: the node leaves its parent's list, its own pointers stay. */
  method UnlinkInner(node: Node, ghost nodes: set<Node>)
    requires Tree(nodes) && node in nodes
    modifies Only(node.parent)`firstChild, Only(node.parent)`lastChild, Only(node.parent)`children
    modifies Only(node.prev)`next, Only(node.next)`prev
    ensures Loose(nodes, node)
    ensures forall n <- nodes :: n.children == Less(old(n.children), node)
    ensures node.prev == old(node.prev) && node.next == old(node.next)
    ensures node.prev != null ==> node.prev != node && node.prev.next == node.next
    ensures node.prev != null ==> node.parent != null && node.parent.firstChild == old(node.parent.firstChild)
  {
    assert node.Home(nodes);
    if node.parent == null {
      forall n | n in nodes ensures n.Keeps(nodes) && node !in n.children {
        Childless(n, node, nodes);
      }
    } else {
      Placed(node, nodes);
      UnlinkFromParent(node, nodes);
    }
  }

  // The pointers the four insertions set: x goes between before and after.
  method LinkSlots(parent: Node, before: Node?, x: Node, after: Node?, ghost k: nat)
    requires parent.Wired(parent.children) && k <= |parent.children|
    requires before == At(parent.children, k - 1) && after == At(parent.children, k)
    requires x !in parent.children && x != parent && parent !in parent.children
    modifies x`next, x`prev, x`parent, parent`firstChild, parent`lastChild, parent`children
    modifies Only(before)`next, Only(after)`prev
    ensures x.parent == parent
    ensures parent.children == Inserted(old(parent.children), k, x) && parent.Wired(parent.children)
  {
    ghost var c := parent.children;
    if k < |c| {
      Around(parent, c, k);
    }
    if k > 0 {
      Around(parent, c, k - 1);
    }
    x.next := after;
    x.prev := before;
    x.parent := parent;
    if before == null {
      parent.firstChild := x;
    } else {
      before.next := x;
    }
    if after == null {
      parent.lastChild := x;
    } else {
      after.prev := x;
    }
    parent.children := Inserted(c, k, x);
    forall i | 0 <= i <= |c| ensures parent.Slot(parent.children, i) {
      if i != k {
        assert old(parent.Slot(c, if i < k then i else i - 1));
      }
    }
  }

  // All that lie below x raise their rank above the new parent's.
  ghost method Raise(x: Node, amount: nat, nodes: set<Node>)
    requires x in nodes
    requires forall n <- nodes :: n != x && n.parent != null ==> n.parent in nodes && n.parent.rank < n.rank
    modifies nodes`rank
    ensures forall n <- nodes :: n.rank == old(n.rank) + if x in old(Lineage(n, nodes)) then amount else 0
    ensures forall n <- nodes :: n != x && n.parent != null ==> n.parent.rank < n.rank
  {
    var below := set n <- nodes | x in Lineage(n, nodes);
    forall n | n in below {
      n.rank := n.rank + amount;
    }
  }

  // Only the parent's list changes.
  method LinkInTree(parent: Node, before: Node?, x: Node, after: Node?, ghost k: nat, ghost nodes: set<Node>)
    requires Loose(nodes, x) && parent in nodes && x in nodes && parent != x
    requires k <= |parent.children| && before == At(parent.children, k - 1) && after == At(parent.children, k)
    modifies nodes`next, nodes`prev, nodes`firstChild, nodes`lastChild, nodes`children, x`parent
    ensures x.parent == parent
    ensures forall n {:trigger n.Keeps(nodes)} :: n in nodes ==> n.Keeps(nodes)
    ensures forall n <- nodes :: n != x && n.parent == null ==> n.prev == old(n.prev) && n.next == old(n.next)
    ensures forall n <- nodes :: n.children == if n == parent then Inserted(old(n.children), k, x) else old(n.children)
  {
    assert parent.Keeps(nodes);
    NotOwnChild(parent, nodes, x);
    LinkSlots(parent, before, x, after, k);
    forall n | n in nodes ensures n.Keeps(nodes) {
      assert old(n.Keeps(nodes));
      if n != parent {
        forall i | 0 <= i < |n.children| ensures n.Slot(n.children, i) {
          assert old(n.Slot(n.children, i));
        }
      }
    }
  }

  method Link(parent: Node, before: Node?, x: Node, after: Node?, ghost k: nat, ghost nodes: set<Node>)
    requires Loose(nodes, x) && parent in nodes && x in nodes && x !in Lineage(parent, nodes) && MayHold(parent.kind, x.kind)
    requires k <= |parent.children| && before == At(parent.children, k - 1) && after == At(parent.children, k)
    modifies nodes`next, nodes`prev, nodes`firstChild, nodes`lastChild, nodes`children, nodes`rank, x`parent
    ensures Tree(nodes) && x.parent == parent
    ensures forall n <- nodes :: n.children == if n == parent then Inserted(old(n.children), k, x) else old(n.children)
  {
    forall n | n in nodes && n != x ensures n.parent != null ==> n.parent in nodes && n.parent.rank < n.rank {
      assert n.Home(nodes);
    }
    Raise(x, parent.rank + 1, nodes);
    forall n | n in nodes && n != x ensures n.Home(nodes) {
      assert old(n.Home(nodes));
    }
    LinkInTree(parent, before, x, after, k, nodes);
    forall n | n in nodes ensures n.Home(nodes) {
      assert n != x ==> old(n.Home(nodes));
    }
  }

  lemma NotOwnChild(p: Node, nodes: set<Node>, x: Node)
    requires Loose(nodes, x) && p in nodes && p != x
    ensures p !in p.children
    ensures forall c <- p.children :: c.parent == p && (c.prev != null ==> c.prev.parent == p) && (c.next != null ==> c.next.parent == p)
  {
    assert p.Keeps(nodes) && p.Home(nodes);
    forall c | c in p.children
      ensures c.parent == p && (c.prev != null ==> c.prev.parent == p) && (c.next != null ==> c.next.parent == p) {
      ChildOf(p, p.children, c);
    }
  }

  // ---------- the public edits ----------

  /** cmark_node_unlink: the node and what hangs on it become a tree of their own. */
  method Unlink(node: Node, ghost nodes: set<Node>)
    requires Tree(nodes) && node in nodes
    modifies Only(node.parent)`firstChild, Only(node.parent)`lastChild, Only(node.parent)`children
    modifies Only(node.prev)`next, Only(node.next)`prev, node`next, node`prev, node`parent
    ensures Tree(nodes) && node.parent == null
    ensures forall n <- nodes :: n.children == Less(old(n.children), node)
    ensures old(node.prev) != null ==> old(node.prev) != node && old(node.prev).next == old(node.next)
    ensures old(node.prev) != null ==> old(node.parent) != null && old(node.parent).firstChild == old(node.parent.firstChild)
  {
    Neighbours(node, nodes);
    UnlinkInner(node, nodes);
    LetGoOwn(node, nodes);
  }

  // The node's own pointers.
  method LetGoOwn(node: Node, ghost nodes: set<Node>)
    requires Loose(nodes, node) && node in nodes
    modifies node`next, node`prev, node`parent
    ensures Tree(nodes) && node.parent == null
  {
    node.next := null;
    node.prev := null;
    node.parent := null;
    forall n | n in nodes ensures n.Keeps(nodes) {
      assert old(n.Keeps(nodes));
      forall i | 0 <= i < |n.children| ensures n.Slot(n.children, i) {
        assert old(n.Slot(n.children, i));
      }
    }
    forall n | n in nodes ensures n.Home(nodes) {
      assert n != node ==> old(n.Home(nodes));
    }
  }

  /** The child goes first; the edit is refused exactly when the kinds forbid it or the child is above the node. */
  method PrependChild(node: Node, child: Node, ghost nodes: set<Node>) returns (ok: bool)
    requires Tree(nodes) && node in nodes && child in nodes
    modifies nodes`next, nodes`prev, nodes`firstChild, nodes`lastChild, nodes`children, nodes`rank, child`parent
    ensures Tree(nodes)
    ensures ok <==> MayHold(node.kind, child.kind) && child !in old(Lineage(node, nodes))
    ensures ok ==> forall n <- nodes :: n.children == (if n == node then [child] else []) + Less(old(n.children), child)
    ensures !ok ==> unchanged(nodes)
  {
    ok := CanContain(node, child, nodes);
    if !ok {
      return;
    }
    Neighbours(child, nodes);
    UnlinkInner(child, nodes);
    assert node.Keeps(nodes);
    Link(node, null, child, node.firstChild, 0, nodes);
  }

  /** The child goes last. */
  method AppendChild(node: Node, child: Node, ghost nodes: set<Node>) returns (ok: bool)
    requires Tree(nodes) && node in nodes && child in nodes
    modifies nodes`next, nodes`prev, nodes`firstChild, nodes`lastChild, nodes`children, nodes`rank, child`parent
    ensures Tree(nodes)
    ensures ok <==> MayHold(node.kind, child.kind) && child !in old(Lineage(node, nodes))
    ensures ok ==> forall n <- nodes :: n.children == Less(old(n.children), child) + if n == node then [child] else []
    ensures !ok ==> unchanged(nodes)
  {
    ok := CanContain(node, child, nodes);
    if !ok {
      return;
    }
    Neighbours(child, nodes);
    UnlinkInner(child, nodes);
    assert node.Keeps(nodes);
    Link(node, node.lastChild, child, null, |node.children|, nodes);
  }

  ghost function InsertedBefore(c: seq<Node>, node: Node, x: Node): seq<Node> {
    if node in c then Inserted(c, Position(c, node), x) else c
  }

  ghost function InsertedAfter(c: seq<Node>, node: Node, x: Node): seq<Node> {
    if node in c then Inserted(c, Position(c, node) + 1, x) else c
  }

  // Where a node stands while another is loose.
  lemma StandsAt(node: Node, x: Node, nodes: set<Node>)
    requires Loose(nodes, x) && node in nodes && node != x && node.parent != null
    ensures node.parent in nodes && node in node.parent.children
    ensures var c := node.parent.children; var k: int := Position(c, node);
            node.prev == At(c, k - 1) && node.next == At(c, k + 1) && At(c, k) == node
  {
    assert node.Home(nodes) && node.parent.Keeps(nodes);
    assert node.parent.Slot(node.parent.children, Position(node.parent.children, node));
  }

  /** The sibling goes before the node; inserting a node before itself is not refused, and leaves it its own neighbour. */
  method InsertBefore(node: Node, sibling: Node, ghost nodes: set<Node>) returns (ok: bool)
    requires Tree(nodes) && node in nodes && sibling in nodes
    modifies nodes`next, nodes`prev, nodes`firstChild, nodes`lastChild, nodes`children, nodes`rank, sibling`parent
    ensures ok <==> old(node.parent) != null && old(node.parent) in nodes && MayHold(old(node.parent).kind, sibling.kind)
                    && sibling !in old(Lineage(node.parent, nodes))
    ensures Tree(nodes) <==> !(ok && node == sibling)
    ensures ok && node != sibling ==> forall n <- nodes :: n != node.parent ==> n.children == Less(old(n.children), sibling)
    ensures ok && node != sibling ==> node.parent.children == InsertedBefore(Less(old(node.parent.children), sibling), node, sibling)
    ensures !ok ==> unchanged(nodes)
  {
    if node.parent == null {
      return false;
    }
    Placed(node, nodes);
    ok := CanContain(node.parent, sibling, nodes);
    if !ok {
      return;
    }
    Neighbours(sibling, nodes);
    UnlinkInner(sibling, nodes);
    if node != sibling {
      StandsAt(node, sibling, nodes);
      Link(node.parent, node.prev, sibling, node, Position(node.parent.children, node), nodes);
    } else {
      LinkBeforeItself(node, nodes);
    }
  }

  // The same assignments, now to one node.
  method LinkBeforeItself(node: Node, ghost nodes: set<Node>)
    requires node in nodes && node.parent != null && node.parent in nodes && (node.prev != null ==> node.prev in nodes)
    modifies nodes`next, nodes`prev, nodes`firstChild
    ensures !Tree(nodes)
  {
    var oldPrev := node.prev;
    if oldPrev != null {
      oldPrev.next := node;
    } else {
      node.parent.firstChild := node;
    }
    node.prev := oldPrev;
    node.next := node;
    node.prev := node;
    OwnNeighbour(node, nodes);
  }

  method LinkAfterItself(node: Node, ghost nodes: set<Node>)
    requires node in nodes && node.parent != null && node.parent in nodes && (node.next != null ==> node.next in nodes)
    modifies nodes`next, nodes`prev, nodes`lastChild
    ensures !Tree(nodes)
  {
    var oldNext := node.next;
    if oldNext != null {
      oldNext.prev := node;
    } else {
      node.parent.lastChild := node;
    }
    node.next := oldNext;
    node.prev := node;
    node.next := node;
    OwnNeighbour(node, nodes);
  }

  /** The sibling goes behind the node, with the same exception. */
  method InsertAfter(node: Node, sibling: Node, ghost nodes: set<Node>) returns (ok: bool)
    requires Tree(nodes) && node in nodes && sibling in nodes
    modifies nodes`next, nodes`prev, nodes`firstChild, nodes`lastChild, nodes`children, nodes`rank, sibling`parent
    ensures ok <==> old(node.parent) != null && old(node.parent) in nodes && MayHold(old(node.parent).kind, sibling.kind)
                    && sibling !in old(Lineage(node.parent, nodes))
    ensures Tree(nodes) <==> !(ok && node == sibling)
    ensures ok && node != sibling ==> forall n <- nodes :: n != node.parent ==> n.children == Less(old(n.children), sibling)
    ensures ok && node != sibling ==> node.parent.children == InsertedAfter(Less(old(node.parent.children), sibling), node, sibling)
    ensures !ok ==> unchanged(nodes)
  {
    if node.parent == null {
      return false;
    }
    Placed(node, nodes);
    ok := CanContain(node.parent, sibling, nodes);
    if !ok {
      return;
    }
    Neighbours(sibling, nodes);
    UnlinkInner(sibling, nodes);
    if node != sibling {
      StandsAt(node, sibling, nodes);
      Link(node.parent, node, sibling, node.next, Position(node.parent.children, node) + 1, nodes);
    } else {
      LinkAfterItself(node, nodes);
    }
  }

  /** A document with one paragraph, and that paragraph inserted before itself: accepted, and no tree any more. */
  method InsertBeforeItself() returns (ok: bool, ghost nodes: set<Node>)
    ensures ok && !Tree(nodes)
  {
    var (document, paragraph) := (Document, Paragraph);
    var root := new Node(document);
    var node := new Node(paragraph);
    nodes := {root, node};
    assert forall n <- nodes :: n.Home(nodes) && n.Keeps(nodes);
    var linked := AppendChild(root, node, nodes);
    assert root.Keeps(nodes) && root.Home(nodes) && node in root.children && node.Home(nodes);
    ChildOf(root, root.children, node);
    ok := InsertBefore(node, node, nodes);
  }

  // No node of a tree is its own neighbour.
  lemma OwnNeighbour(node: Node, nodes: set<Node>)
    requires node in nodes && node.parent != null && (node.next == node || node.prev == node)
    ensures !Tree(nodes)
  {
    if Tree(nodes) {
      Placed(node, nodes);
    }
  }
}
