/** Blocks under construction (node.c, blocks.c): their kinds, which may hold which, and the shape of a tree half built. */
module BlockTree {

  datatype Kind = Document | BlockQuote | List | Item | CodeBlock | HtmlBlock | Paragraph | Heading | ThematicBreak

  datatype ListData = ListData(ordered: bool, bullet: char, paren: bool, start: nat, markerOffset: nat, padding: nat)

  datatype Fence = Fence(fenced: bool, mark: char, length: nat, offset: nat)

  // cmark_node_can_contain_type, for the core block types.
  predicate CanContain(parent: Kind, child: Kind) {
    match parent
    case Document | BlockQuote | Item => child != Document && child != Item
    case List => child == Item
    case _ => false
  }

  predicate AcceptsLines(kind: Kind) {
    kind == Paragraph || kind == Heading || kind == CodeBlock
  }

  /** A block; parent and depth are set when it is added and stay for its life. */
  class Block {
    const parent: Block?
    ghost const depth: nat
    var kind: Kind
    var open: bool
    var children: seq<Block>
    var content: string
    var list: ListData
    var fence: Fence
    var htmlType: nat

    // make_block; a block is born open
    constructor (kind: Kind, parent: Block?)
      ensures this.kind == kind && this.parent == parent && open && children == [] && FrameOf(this) == New(kind)
      ensures depth == if parent == null then 0 else parent.depth + 1
    {
      this.kind, this.parent, open, children, content := kind, parent, true, [], "";
      list := ListData(false, '\0', false, 0, 0, 0);
      fence := Fence(false, '\0', 0, 0);
      htmlType := 0;
      depth := if parent == null then 0 else parent.depth + 1;
    }
  }

  /** A block and all that hold it. */
  ghost function Lineage(b: Block): (line: set<Block>)
    ensures b in line
    decreases b.depth
  {
    if b.parent == null || b.parent.depth >= b.depth then {b} else {b} + Lineage(b.parent)
  }

  lemma {:induction false} LineageDepth(b: Block, x: Block)
    requires x in Lineage(b)
    ensures x.depth <= b.depth && (x.depth == b.depth ==> x == b)
    decreases b.depth
  {
    if x != b {
      LineageDepth(b.parent, x);
    }
  }

  // What the block parser knows of a block; its children count, the blocks themselves do not.
  datatype Frame = Frame(kind: Kind, list: ListData, fence: Fence, htmlType: nat, content: string, children: nat)

  // A block as make_block leaves it.
  function New(kind: Kind): Frame {
    Frame(kind, ListData(false, '\0', false, 0, 0, 0), Fence(false, '\0', 0, 0), 0, "", 0)
  }

  // The open blocks, outermost first.
  type Chain = fs: seq<Frame> | fs != [] witness [New(Document)]

  function Last(fs: Chain): Frame {
    fs[|fs| - 1]
  }

  ghost function ChildCount(children: seq<Block>): (n: nat)
    ensures n == 0 <==> children == []
  {
    var all := set c <- children;
    assert children != [] ==> children[0] in all;
    |all|
  }

  ghost function FrameOf(b: Block): Frame
    reads {b}`kind, {b}`list, {b}`fence, {b}`htmlType, {b}`content, {b}`children
  {
    Frame(b.kind, b.list, b.fence, b.htmlType, b.content, ChildCount(b.children))
  }

  // How many blocks hold b, itself included.
  ghost function Height(b: Block): (n: nat)
    decreases b.depth
  {
    if b.parent == null || b.parent.depth >= b.depth then 1 else Height(b.parent) + 1
  }

  /** The frames from the outermost block down to b. */
  ghost function Frames(b: Block): (fs: Chain)
    reads Lineage(b)`kind, Lineage(b)`list, Lineage(b)`fence, Lineage(b)`htmlType, Lineage(b)`content, Lineage(b)`children
    ensures Last(fs) == FrameOf(b) && |fs| == Height(b)
    decreases b.depth
  {
    (if b.parent == null || b.parent.depth >= b.depth then [] else Frames(b.parent)) + [FrameOf(b)]
  }

  lemma {:induction false} FramesPrefix(b: Block, a: Block)
    requires a in Lineage(b)
    ensures |Frames(a)| <= |Frames(b)| && Frames(a) == Frames(b)[..|Frames(a)|]
    ensures a != b ==> |Frames(a)| < |Frames(b)|
    decreases b.depth
  {
    if b.parent != null && b.parent.depth < b.depth {
      FramesPrefix(b.parent, if a == b then b.parent else a);
    }
  }

  /** The list without a block that is freed. */
  function Without(s: seq<Block>, b: Block): seq<Block> {
    if s == [] then []
    else
      var (rest, last) := (Without(s[..|s| - 1], b), s[|s| - 1]);
      if last == b then rest else rest + [last]
  }

  lemma {:induction false} WithoutMembers(s: seq<Block>, b: Block)
    ensures var r := Without(s, b);
            && (forall c <- r :: c in s && c != b) && (forall c <- s :: c != b ==> c in r)
            && (s != [] && s[|s| - 1] != b ==> r != [] && r[|r| - 1] == s[|s| - 1])
  {
    if s != [] {
      var (front, last, r) := (s[..|s| - 1], s[|s| - 1], Without(s, b));
      WithoutMembers(front, b);
      assert r == Without(front, b) + if last == b then [] else [last];
      assert forall c :: c in s <==> c in front || c == last;
    }
  }

  lemma CountWithout(s: seq<Block>, b: Block)
    requires b in s
    ensures ChildCount(s) > 0 && ChildCount(Without(s, b)) == ChildCount(s) - 1
  {
    var (all, rest) := (set c <- s, set c <- Without(s, b));
    WithoutMembers(s, b);
    assert rest == all - {b};
  }

  lemma CountWith(s: seq<Block>, b: Block)
    requires b !in s
    ensures ChildCount(s + [b]) == ChildCount(s) + 1
  {
    var (all, more) := (set c <- s, set c <- s + [b]);
    assert more == all + {b};
  }

  // The others keep their order and number.
  lemma {:induction false} WithoutIsRest(a: seq<Block>, b: Block, c: seq<Block>)
    requires b !in a && b !in c
    ensures Without(a + [b] + c, b) == a + c && Without(a, b) == a
    decreases |c|, |a|
  {
    var s := a + [b] + c;
    if c != [] {
      var n := |c| - 1;
      assert s[..|s| - 1] == a + [b] + c[..n] && s[|s| - 1] == c[n];
      WithoutIsRest(a, b, c[..n]);
      assert (a + c[..n]) + [c[n]] == a + c;
    } else {
      assert s[..|s| - 1] == a && s[|s| - 1] == b && a + c == a;
      if a != [] {
        WithoutIsRest(a[..|a| - 1], b, []);
        assert a[..|a| - 1] + [a[|a| - 1]] == a;
      }
    }
  }

  ghost predicate Child(b: Block, c: Block, nodes: set<Block>) {
    c in nodes && c.parent == b
  }

  ghost predicate Owns(b: Block, children: seq<Block>, nodes: set<Block>) {
    forall c {:trigger Child(b, c, nodes)} :: c in children ==> Child(b, c, nodes)
  }

  // What a block owns when one block is gone.
  ghost predicate OwnsAfter(b: Block, gone: Block, children: seq<Block>, nodes: set<Block>) {
    Owns(b, if b == gone.parent then Without(children, gone) else children, nodes - {gone})
  }

  lemma OwnsWithout(b: Block, children: seq<Block>, nodes: set<Block>, gone: Block)
    requires Owns(b, children, nodes)
    ensures Owns(b, Without(children, gone), nodes - {gone})
    ensures gone !in children ==> Owns(b, children, nodes - {gone})
  {
    WithoutMembers(children, gone);
    forall c | c in children && c != gone ensures Child(b, c, nodes - {gone}) {
      assert Child(b, c, nodes);
    }
  }

  ghost predicate HasParent(b: Block, nodes: set<Block>)
    reads nodes`kind, nodes`children
    requires b in nodes
  {
    && b.parent != null && b.parent in nodes && b in b.parent.children
    && b.depth == b.parent.depth + 1 && CanContain(b.parent.kind, b.kind)
  }

  /** Parents and children agree, depths count parents, and every block may hold its children. */
  ghost predicate Family(root: Block, nodes: set<Block>)
    reads nodes`kind, nodes`children
  {
    && root in nodes && root.kind == Document && root.parent == null && root.depth == 0
    && (forall b {:trigger HasParent(b, nodes)} :: b in nodes && b != root ==> HasParent(b, nodes))
    && (forall b {:trigger Owns(b, b.children, nodes)} :: b in nodes ==> Owns(b, b.children, nodes))
  }

  ghost predicate IsLast(b: Block, nodes: set<Block>)
    reads nodes`children
  {
    b.parent != null ==> b.parent in nodes && b.parent.children != [] && b.parent.children[|b.parent.children| - 1] == b
  }

  lemma ParentHolds(root: Block, nodes: set<Block>, b: Block)
    requires Family(root, nodes) && b in nodes && b != root
    ensures b.parent != null && b.parent in nodes && b in b.parent.children
    ensures b.depth == b.parent.depth + 1 && CanContain(b.parent.kind, b.kind)
  {
    var held := HasParent(b, nodes);
  }

  // What holds a block, or the block itself, is not held by it.
  lemma NoCycle(root: Block, nodes: set<Block>, b: Block, x: Block)
    requires Family(root, nodes) && b in nodes && x in Lineage(b)
    ensures x.parent != b
  {
    LineageInTree(root, nodes, b);
    LineageDepth(b, x);
    var held := x != root && HasParent(x, nodes);
  }

  // From the root down to b, every block is the last child of the one before.
  ghost predicate LastChildren(b: Block, nodes: set<Block>)
    reads nodes`children
  {
    Lineage(b) <= nodes && forall x {:trigger IsLast(x, nodes)} :: x in Lineage(b) ==> IsLast(x, nodes)
  }

  lemma LastAbove(b: Block, a: Block, nodes: set<Block>)
    requires LastChildren(b, nodes) && Lineage(a) <= Lineage(b)
    ensures LastChildren(a, nodes)
  {
    forall x | x in Lineage(a) ensures IsLast(x, nodes) {
      assert IsLast(x, nodes);
    }
  }

  // At most the childless block gone left the tree.
  ghost predicate AtMostGone(nodes: set<Block>, after: set<Block>, gone: Block) {
    after == nodes || (after == nodes - {gone} && forall n <- nodes :: n.parent != gone)
  }

  /** The blocks open inside a line: the container with all that hold it, and those from current up to the last matched. */
  ghost predicate Opened(nodes: set<Block>, container: Block, current: Block, matched: Block)
    reads nodes`open
  {
    && matched in Lineage(current)
    && (forall b {:trigger b in Lineage(current)} :: b in Lineage(current) - Lineage(matched) ==> b in nodes && b !in Lineage(container))
    && (forall b {:trigger b.open} :: b in nodes ==> (b.open <==> b in Lineage(container) || b in Lineage(current) - Lineage(matched)))
  }

  // Nothing is unmatched any more.
  lemma OpenedHere(nodes: set<Block>, container: Block, matched: Block)
    requires Opened(nodes, container, matched, matched)
    ensures Opened(nodes, container, container, container)
  {
  }

  lemma {:induction false} LineageInTree(root: Block, nodes: set<Block>, b: Block)
    requires Family(root, nodes) && b in nodes
    ensures Lineage(b) <= nodes && root in Lineage(b)
    ensures forall x <- Lineage(b) :: x != root ==> x.parent in Lineage(b)
    decreases b.depth
  {
    if b != root {
      assert HasParent(b, nodes);
      LineageInTree(root, nodes, b.parent);
    }
  }

  // Each block's frame stands at its depth.
  lemma {:induction false} FramesAt(root: Block, nodes: set<Block>, b: Block)
    requires Family(root, nodes) && b in nodes
    ensures |Frames(b)| == b.depth + 1 && forall x <- Lineage(b) :: x.depth <= b.depth && Frames(b)[x.depth] == FrameOf(x)
    decreases b.depth
  {
    if b != root {
      ParentHolds(root, nodes, b);
      FramesAt(root, nodes, b.parent);
    }
  }

  lemma {:induction false} FramesEqual(root: Block, nodes: set<Block>, b: Block, fs: seq<Frame>)
    requires Family(root, nodes) && b in nodes
    requires |fs| == b.depth + 1 && forall x <- Lineage(b) :: x.depth <= b.depth && fs[x.depth] == FrameOf(x)
    ensures Frames(b) == fs
    decreases b.depth
  {
    if b != root {
      ParentHolds(root, nodes, b);
      FramesAt(root, nodes, b.parent);
      FramesEqual(root, nodes, b.parent, fs[..b.depth]);
    }
    assert fs == fs[..b.depth] + [fs[b.depth]];
  }

  // A lineage has one block at each depth.
  lemma {:induction false} SameDepth(b: Block, x: Block, y: Block)
    requires x in Lineage(b) && y in Lineage(b) && x.depth == y.depth
    ensures x == y
    decreases b.depth
  {
    if x != b && y != b {
      SameDepth(b.parent, x, y);
    } else {
      LineageDepth(b, x);
      LineageDepth(b, y);
    }
  }

  lemma {:induction false} LineageContains(b: Block, a: Block)
    requires a in Lineage(b)
    ensures Lineage(a) <= Lineage(b)
    decreases b.depth
  {
    if a != b {
      LineageContains(b.parent, a);
    }
  }

  // Below a, b's lineage is b and the lineage of its parent.
  lemma LineageStep(b: Block, a: Block)
    requires a in Lineage(b) && a != b
    ensures b.parent != null && a in Lineage(b.parent) && b !in Lineage(a) && Lineage(b) == {b} + Lineage(b.parent)
    ensures b !in Lineage(b.parent) && Lineage(b.parent) - Lineage(a) == Lineage(b) - Lineage(a) - {b}
  {
    if b in Lineage(a) {
      LineageDepth(a, b);
      LineageDepth(b, a);
    }
    if b in Lineage(b.parent) {
      LineageDepth(b.parent, b);
    }
  }

  // The step of a lineage below one of its members.
  lemma {:induction false} StepBelow(b: Block, a: Block) returns (c: Block)
    requires a in Lineage(b) && a != b
    ensures c in Lineage(b) && c.parent == a
    decreases b.depth
  {
    if b.parent == a {
      c := b;
    } else {
      c := StepBelow(b.parent, a);
    }
  }
}
