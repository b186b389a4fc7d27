/** The open blocks of blocks.c: which blocks a line closes, opens and adds to. */
module OpenBlocks {

  import opened Common
  import opened BlockLines
  import opened BlockScan
  import opened BlockTree
  import opened Columns
  import LineCursor

  class Parser {
    const scan: Scanners
    const root: Block
    var current: Block
    var lineNumber: nat
    var thematicBreakKillPos: nat
    ghost var nodes: set<Block>

    /** Inside a line: open are the container being filled with all that hold it, and the blocks below the last matched one. */
    ghost predicate Shape(container: Block, matched: Block)
      reads this`current, this`nodes, nodes`kind, nodes`open, nodes`children
    {
      Family(root, nodes) && Opened(nodes, container, current, matched) && LastChildren(container, nodes)
    }

    /** Between lines: open are exactly the current block and all that hold it, each the last child of the next. */
    ghost predicate Valid()
      reads this`current, this`nodes, nodes`kind, nodes`open, nodes`children
    {
      Shape(current, current)
    }

    // cmark_parser_new: an open document
    constructor (scan: Scanners)
      ensures Valid() && current == root && lineNumber == 0 && this.scan == scan
      ensures Frames(current) == [New(Document)]
      ensures nodes == {root} && fresh(root)
    {
      this.scan := scan;
      var document := new Block(Document, null);
      root, current := document, document;
      lineNumber, thematicBreakKillPos := 0, 0;
      nodes := {document};
    }

    // ---------- closing and opening one block ----------

    // A paragraph of nothing but definitions.
    ghost predicate Gone(b: Block)
      reads {b}`kind, {b}`content
    {
      b.kind == Paragraph && BlankText(scan.definitions(b.content))
    }

    /** finalize is only called on an open block; it closes that block, and frees a paragraph that was all definitions. */
    method Finalize(b: Block) returns (parent: Block?)
      requires Family(root, nodes) && b in nodes && b.open
      modifies this`nodes, b`open, b`content, Lineage(b)`children
      ensures Family(root, nodes)
      ensures parent == b.parent && !b.open
      ensures b.content == if b.kind == Paragraph then scan.definitions(old(b.content)) else old(b.content)
      ensures nodes == if old(Gone(b)) then old(nodes) - {b} else old(nodes)
      ensures old(Gone(b)) ==> parent != null && forall n <- old(nodes) :: n.parent != b
      ensures forall n <- old(nodes) :: n.children == if old(Gone(b)) && n == parent then Without(old(n.children), b) else old(n.children)
      ensures forall x {:trigger IsLast(x, nodes)} :: x in nodes && old(IsLast(x, nodes)) ==> IsLast(x, nodes)
    {
      parent := b.parent;
      b.open := false;
      if b.kind == Paragraph {
        b.content := scan.definitions(b.content);
        if BlankText(b.content) {
          Free(b);
        }
      }
    }

    // cmark_node_free, of a paragraph
    method Free(b: Block)
      requires Family(root, nodes) && b in nodes && b.kind == Paragraph
      modifies this`nodes, Lineage(b)`children
      ensures Family(root, nodes)
      ensures nodes == old(nodes) - {b} && b.parent != null && forall n <- old(nodes) :: n.parent != b
      ensures forall n <- old(nodes) :: n.children == if n == b.parent then Without(old(n.children), b) else old(n.children)
      ensures forall x {:trigger IsLast(x, nodes)} :: x in nodes && old(IsLast(x, nodes)) ==> IsLast(x, nodes)
    {
      OwnsLess(b);
      WithoutMembers(b.parent.children, b);
      b.parent.children := Without(b.parent.children, b);
      nodes := nodes - {b};
      forall n | n in nodes ensures Owns(n, n.children, nodes) {
        assert OwnsAfter(n, b, old(n.children), old(nodes));
      }
      forall n | n in nodes && n != root ensures HasParent(n, nodes) {
        assert old(HasParent(n, nodes));
      }
    }

    // Without a childless block its parent and all others still own their children.
    lemma OwnsLess(b: Block)
      requires Family(root, nodes) && b in nodes && b.kind == Paragraph
      ensures b.parent != null && b.parent in nodes && b.parent != b && Lineage(b.parent) <= Lineage(b)
      ensures forall n <- nodes :: n.parent != b
      ensures forall n {:trigger OwnsAfter(n, b, n.children, nodes)} :: n in nodes ==> OwnsAfter(n, b, n.children, nodes)
    {
      ParentHolds(root, nodes, b);
      forall n | n in nodes ensures n.parent != b {
        assert n != root ==> HasParent(n, nodes);
      }
      forall n | n in nodes ensures OwnsAfter(n, b, n.children, nodes) {
        assert Owns(n, n.children, nodes) && (n != b.parent ==> !Child(n, b, nodes));
        OwnsWithout(n, n.children, nodes, b);
      }
    }

    // The frames of a block, when p alone has lost a child.
    lemma FramesAfter(b: Block, p: Block, fs: Chain)
      requires Family(root, nodes) && b in nodes && |fs| == b.depth + 1
      requires forall x <- Lineage(b) :: x.depth <= b.depth && (x != p ==> FrameOf(x) == fs[x.depth])
      requires p in Lineage(b) ==> p.depth <= b.depth && fs[p.depth].children > 0
      requires p in Lineage(b) ==> FrameOf(p) == fs[p.depth].(children := fs[p.depth].children - 1)
      ensures Frames(b) == if p in Lineage(b) then OneLess(fs, p.depth) else fs
    {
      if p in Lineage(b) {
        var less := OneLess(fs, p.depth);
        forall x | x in Lineage(b) ensures less[x.depth] == FrameOf(x) {
          if x.depth == p.depth {
            SameDepth(b, x, p);
          }
        }
        FramesEqual(root, nodes, b, less);
      } else {
        FramesEqual(root, nodes, b, fs);
      }
    }

    lemma ClosedFrames(b: Block)
      requires Family(root, nodes) && b in nodes && b != root
      ensures b.parent in nodes && |Frames(b)| > 1
      ensures Closed(scan, Frames(b)) == if Gone(b) then OneLess(Frames(b.parent), b.parent.depth) else Frames(b.parent)
    {
      ParentHolds(root, nodes, b);
      FramesAt(root, nodes, b.parent);
      var (fs, outer) := (Frames(b), Frames(b.parent));
      assert fs == outer + [FrameOf(b)];
      assert fs[..|fs| - 1] == outer;
    }

    // What closing a block changes in the frames of another: at most a child of its parent is gone.
    method Close(b: Block, ghost other: Block) returns (parent: Block)
      requires Family(root, nodes) && b in nodes && b.open && b != root
      requires other in nodes && b !in Lineage(other)
      modifies this`nodes, b`open, b`content, Lineage(b)`children
      ensures Family(root, nodes) && !b.open
      ensures parent == b.parent
      ensures AtMostGone(old(nodes), nodes, b)
      ensures other in nodes && (old(LastChildren(other, nodes)) ==> LastChildren(other, nodes))
      ensures Frames(other) == if old(Gone(b)) && parent in Lineage(other) then OneLess(old(Frames(other)), parent.depth) else old(Frames(other))
    {
      ParentHolds(root, nodes, b);
      LineageInTree(root, nodes, other);
      CountWithout(b.parent.children, b);
      FramesAt(root, nodes, other);
      ghost var (fs, gone, was) := (Frames(other), Gone(b), b.parent.children);
      parent := Finalize(b);
      if gone {
        assert parent.children == Without(was, b);
        FramesAfter(other, parent, fs);
      } else {
        FramesAfter(other, b, fs);
      }
    }

    // finalize of the container: it stops being filled, and its parent takes its place.
    method CloseContainer(container: Block, ghost matched: Block) returns (parent: Block)
      requires Shape(container, matched) && container != root
      modifies this`nodes, container`open, container`content, Lineage(container)`children
      ensures parent == container.parent && Shape(parent, matched)
      ensures |old(Frames(container))| > 1 && Frames(parent) == Closed(scan, old(Frames(container)))
      ensures !container.open && CanContain(parent.kind, container.kind)
      ensures nodes <= old(nodes) <= nodes + {container} && Lineage(container) == {container} + Lineage(parent)
    {
      LineageInTree(root, nodes, container);
      ParentHolds(root, nodes, container);
      LineageStep(container, root);
      LastAbove(container, container.parent, nodes);
      ClosedFrames(container);
      parent := Close(container, container.parent);
    }

    // finalize of a block that the line did not match
    method CloseCurrent(ghost container: Block, matched: Block)
      requires Shape(container, matched) && current != matched
      modifies this`nodes, this`current, current`open, current`content, Lineage(current)`children
      ensures current == old(current.parent) && Shape(container, matched) && CanContain(current.kind, old(current.kind))
      ensures nodes <= old(nodes) <= nodes + {old(current)} && Lineage(old(current)) == {old(current)} + Lineage(current)
      ensures Frames(container) == if old(Gone(current)) && current in Lineage(container)
                                   then OneLess(old(Frames(container)), current.depth) else old(Frames(container))
    {
      LineageStep(current, matched);
      assert current !in Lineage(container);
      ParentHolds(root, nodes, current);
      current := Close(current, container);
    }

    // The links of add_child.
    method Link(container: Block, child: Block)
      requires Family(root, nodes) && container in nodes && LastChildren(container, nodes)
      requires child !in nodes && child.parent == container && child.depth == container.depth + 1 && child.children == []
      requires CanContain(container.kind, child.kind)
      modifies this`nodes, container`children
      ensures nodes == old(nodes) + {child} && container.children == old(container.children) + [child]
      ensures Family(root, nodes) && LastChildren(child, nodes)
    {
      container.children := container.children + [child];
      nodes := nodes + {child};
      forall n | n in nodes && n != root ensures HasParent(n, nodes) {
        assert n != child ==> old(HasParent(n, nodes));
      }
      forall n | n in nodes ensures Owns(n, n.children, nodes) {
        assert n != child ==> old(Owns(n, n.children, nodes));
        forall c | c in n.children ensures Child(n, c, nodes) {
          assert c in old(n.children) ==> Child(n, c, old(nodes));
        }
      }
      forall x | x in Lineage(child) ensures IsLast(x, nodes) {
        if x != child {
          assert old(IsLast(x, nodes));
          NoCycle(root, nodes, container, x);
        }
      }
    }

    // What linking a child changes in the frames.
    method LinkFrame(container: Block, child: Block)
      requires Family(root, nodes) && container in nodes && LastChildren(container, nodes)
      requires child !in nodes && child.parent == container && child.depth == container.depth + 1 && child.children == []
      requires CanContain(container.kind, child.kind)
      modifies this`nodes, container`children
      ensures nodes == old(nodes) + {child}
      ensures Family(root, nodes) && LastChildren(child, nodes)
      ensures Frames(container) == OneMore(old(Frames(container)))
    {
      ghost var (fs, was) := (Frames(container), container.children);
      assert Owns(container, was, nodes) && !Child(container, child, nodes);
      FramesAt(root, nodes, container);
      Link(container, child);
      FramesWithMore(container, was, child, fs);
    }

    // make_block, linked as the last child
    method Append(container: Block, kind: Kind, ghost matched: Block) returns (child: Block)
      requires Shape(container, matched) && CanContain(container.kind, kind)
      modifies this`nodes, container`children
      ensures fresh(child) && nodes == old(nodes) + {child} && child.kind == kind && child.parent == container
      ensures !child.fence.fenced
      ensures Shape(child, matched) && Lineage(child) == {child} + Lineage(container)
      ensures child !in Lineage(container) && FrameOf(child) == New(kind)
      ensures Frames(container) == OneMore(old(Frames(container)))
    {
      child := new Block(kind, container);
      LinkFrame(container, child);
    }

    // The frames of a block that has got a child.
    lemma FramesWithMore(b: Block, was: seq<Block>, child: Block, fs: Chain)
      requires Family(root, nodes) && b in nodes && |fs| == b.depth + 1 && child !in was && b.children == was + [child]
      requires forall x <- Lineage(b) :: x.depth <= b.depth && (x != b ==> FrameOf(x) == fs[x.depth])
      requires FrameOf(b).(children := ChildCount(was)) == fs[b.depth]
      ensures Frames(b) == OneMore(fs)
    {
      CountWith(was, child);
      forall x | x in Lineage(b) ensures FrameOf(x) == OneMore(fs)[x.depth] {
        LineageDepth(b, x);
      }
      FramesEqual(root, nodes, b, OneMore(fs));
    }

    /** add_child: the container takes the child, or is closed and its parent does. */
    method AddChild(container: Block, kind: Kind, ghost matched: Block) returns (child: Block)
      requires Shape(container, matched) && kind != Document && (kind == Item ==> container.kind == List)
      modifies this`nodes, container`open, container`content, Lineage(container)`children
      ensures Shape(child, matched) && fresh(child) && child.kind == kind && !child.fence.fenced
      ensures child.parent == if CanContain(container.kind, kind) then container else container.parent
      ensures container.open <==> CanContain(container.kind, kind)
      ensures child.parent != null && child !in Lineage(child.parent) && FrameOf(child) == New(kind)
      ensures Frames(child.parent) == Room(scan, old(Frames(container)), kind)
      ensures nodes <= old(nodes) + {child} && old(nodes) <= nodes + {container}
      ensures Lineage(child) <= {child} + Lineage(container)
    {
      var parent := container;
      while !CanContain(parent.kind, kind)
        invariant Shape(parent, matched) && Lineage(parent) <= Lineage(container)
        invariant if parent == container then container.open
                  else parent == container.parent && !container.open && !CanContain(container.kind, kind) && CanContain(parent.kind, kind)
        invariant nodes <= old(nodes) <= nodes + {container}
        invariant Room(scan, Frames(parent), kind) == Room(scan, old(Frames(container)), kind)
        decreases parent.depth
      {
        parent := CloseContainer(parent, matched);
      }
      child := Append(parent, kind, matched);
    }

    // The child, with what is known of it from its first line.
    method AddFrame(container: Block, f: Frame, ghost matched: Block) returns (child: Block)
      requires Shape(container, matched) && f.kind != Document && (f.kind == Item ==> container.kind == List)
      requires WellDescribed(f)
      modifies this`nodes, container`open, container`content, Lineage(container)`children
      ensures Shape(child, matched) && fresh(child) && child.kind == f.kind
      ensures child.parent == if CanContain(container.kind, f.kind) then container else container.parent
      ensures CanContain(container.kind, Paragraph) ==> container.open
      ensures Frames(child) == With(scan, old(Frames(container)), f)
      ensures nodes <= old(nodes) + {child} && old(nodes) <= nodes + {container}
      ensures Lineage(child) <= {child} + Lineage(container)
    {
      child := AddChild(container, f.kind, matched);
      SetData(child, f, matched);
    }

    method SetData(child: Block, f: Frame, ghost matched: Block)
      requires Shape(child, matched) && child.parent != null && child !in Lineage(child.parent)
      requires f == FrameOf(child).(list := f.list, fence := f.fence, htmlType := f.htmlType)
      modifies child`list, child`fence, child`htmlType
      ensures Shape(child, matched) && Frames(child) == old(Frames(child.parent)) + [f]
    {
      ParentHolds(root, nodes, child);
      child.list, child.fence, child.htmlType := f.list, f.fence, f.htmlType;
    }

    // ---------- the prefixes of the open blocks ----------

    // The loop over the spaces before a fenced line.
    method SkipFenceOffset(input: string, n: nat, at: LineCursor.Parser, ghost start: nat)
      requires at.Valid(input, start)
      modifies at`offset, at`column, at`partiallyConsumedTab
      ensures at.Valid(input, start) && at.At() == SkipColumns(input, old(at.At()), n)
    {
      var i := n;
      while i > 0 && SpaceOrTab(Peek(input, at.offset))
        invariant at.Valid(input, start) && SkipColumns(input, at.At(), i) == SkipColumns(input, old(at.At()), n)
        decreases i
      {
        at.Consume(input, 1, true, start);
        i := i - 1;
      }
    }

    // parse_code_block_prefix, without the closing of a fence
    method CodePrefix(fence: Fence, input: string, at: LineCursor.Parser, ghost start: nat) returns (matched: bool, closes: bool)
      requires at.Valid(input, start) && at.Scanned(input)
      modifies at`offset, at`column, at`partiallyConsumedTab
      ensures at.Valid(input, start)
      ensures Match(matched, closes, at.At()) == CodeMatch(scan, fence, input, old(at.At()))
    {
      closes := false;
      if !fence.fenced {
        matched := at.ItemPrefix(input, 4, true, start);
      } else {
        matched := true;
        var length := 0;
        if at.indent <= 3 && Peek(input, at.firstNonspace) == fence.mark {
          length := scan.closeFence(input, at.firstNonspace);
        }
        if length >= fence.length {
          closes := true;
          at.Consume(input, length, false, start);
        } else {
          SkipFenceOffset(input, fence.offset, at, start);
        }
      }
    }

    // The switch of check_open_blocks.
    method Prefix(b: Block, input: string, at: LineCursor.Parser, ghost start: nat) returns (matched: bool, closes: bool)
      requires at.Valid(input, start)
      modifies at
      ensures at.Valid(input, start)
      ensures Match(matched, closes, at.At()) == Prefixed(scan, FrameOf(b), input, old(at.At()))
    {
      at.FindFirstNonspace(input, start);
      matched, closes := true, false;
      match b.kind
      case BlockQuote => matched := at.BlockQuotePrefix(input, start);
      case Item => matched := at.ItemPrefix(input, b.list.markerOffset + b.list.padding, b.children != [], start);
      case CodeBlock => matched, closes := CodePrefix(b.fence, input, at, start);
      case Heading => matched := false;
      case HtmlBlock => matched := b.htmlType <= 5 || !at.blank;
      case Paragraph => matched := !at.blank;
      case _ =>
    }

    lemma LastOpenChild(block: Block)
      requires Valid() && block in Lineage(current)
      requires block.children != [] && block.children[|block.children| - 1].open
      ensures var next := block.children[|block.children| - 1];
              next in Lineage(current) && next.parent == block && next.depth == block.depth + 1 <= current.depth
    {
      LineageInTree(root, nodes, current);
      var next := block.children[|block.children| - 1];
      assert Owns(block, block.children, nodes) && Child(block, next, nodes);
      LineageDepth(current, next);
      ParentHolds(root, nodes, next);
    }

    lemma NoOpenChild(block: Block)
      requires Valid() && block in Lineage(current)
      requires block.children == [] || !block.children[|block.children| - 1].open
      ensures block == current
    {
      if block != current {
        var below := StepBelow(current, block);
        var last := IsLast(below, nodes);
      }
    }

    lemma CodeIsCurrent(b: Block)
      requires Valid() && b in Lineage(current) && b.kind == CodeBlock
      ensures b == current && b != root
    {
      if b != current {
        LineageInTree(root, nodes, current);
        var below := StepBelow(current, b);
        ParentHolds(root, nodes, below);
      }
    }

    // The closing of a fence ends its code block.
    method CloseFence()
      requires Valid() && current != root && current.kind == CodeBlock
      modifies this`nodes, this`current, current`open, current`content, Lineage(current)`children
      ensures Valid() && current == old(current.parent)
      ensures |old(Frames(current))| > 1 && Frames(current) == old(Frames(current))[..|old(Frames(current))| - 1]
      ensures nodes <= old(nodes) <= nodes + {old(current)}
    {
      ghost var fs := Frames(current);
      var parent := CloseContainer(current, current);
      assert Frames(parent) == Closed(scan, fs) == fs[..|fs| - 1];
      OpenedHere(nodes, parent, current);
      current := parent;
    }

    // One turn of the loop: the last child, and whether its prefix is met.
    method TryNext(block: Block, input: string, at: LineCursor.Parser, ghost start: nat, ghost fs: Chain, ghost rules: Rules)
      returns (next: Block, matched: bool, closes: bool)
      requires Valid() && at.Valid(input, start) && block in Lineage(current)
      requires block.children != [] && block.children[|block.children| - 1].open
      requires fs == Frames(current) && |fs| == current.depth + 1 && Follows(rules, scan, input)
      modifies at
      ensures at.Valid(input, start)
      ensures next in Lineage(current) && next.parent == block && next.depth == block.depth + 1 < |fs|
      ensures Match(matched, closes, at.At()) == rules.prefix(fs[next.depth], old(at.At()))
      ensures closes ==> next.kind == CodeBlock && matched
    {
      next := block.children[|block.children| - 1];
      LineageInTree(root, nodes, current);
      LastOpenChild(block);
      FramesAt(root, nodes, current);
      AskPrefix(rules, scan, input, FrameOf(next), at.At());
      matched, closes := Prefix(next, input, at, start);
    }

    // The walk of check_open_blocks; at a closing fence it stops at the code block.
    method Descend(input: string, at: LineCursor.Parser, ghost start: nat, ghost fs: Chain, ghost rules: Rules)
      returns (block: Block, allMatched: bool, closes: bool)
      requires Valid() && at.Valid(input, start)
      requires fs == Frames(current) && |fs| == current.depth + 1 && Follows(rules, scan, input)
      modifies at
      ensures at.Valid(input, start) && block in Lineage(current)
      ensures (block.depth + 1, closes, at.At()) == Met(rules, fs, 1, old(at.At()))
      ensures closes ==> block.kind == CodeBlock && !allMatched
      ensures !closes ==> (allMatched <==> block == current)
    {
      block := root;
      LineageInTree(root, nodes, current);
      while block.children != [] && block.children[|block.children| - 1].open
        invariant at.Valid(input, start) && block in Lineage(current)
        invariant Met(rules, fs, block.depth + 1, at.At()) == Met(rules, fs, 1, old(at.At()))
        decreases |fs| - block.depth
        modifies at
      {
        var next, matched, ends := TryNext(block, input, at, start, fs, rules);
        if ends {
          return next, false, true;
        }
        if !matched {
          LineageDepth(current, next);
          return block, false, false;
        }
        block := next;
      }
      NoOpenChild(block);
      return block, true, false;
    }

    /** check_open_blocks: the container is the deepest open block whose prefix and those of all that hold it are met. */
    method CheckOpenBlocks(input: string, at: LineCursor.Parser, ghost start: nat, ghost rules: Rules)
      returns (container: Block?, allMatched: bool)
      requires Valid() && at.Valid(input, start) && Follows(rules, scan, input)
      modifies at, this`nodes, this`current, current`open, current`content, Lineage(current)`children
      ensures at.Valid(input, start)
      ensures var (n, closes, cursor) := Met(rules, old(Frames(current)), 1, old(at.At()));
              && at.At() == cursor && closes == (container == null)
              && (container != null ==> n == container.depth + 1 <= |old(Frames(current))|)
      ensures container == null ==> Valid() && current == old(current.parent)
      ensures container == null ==> |old(Frames(current))| > 1 && Frames(current) == old(Frames(current))[..|old(Frames(current))| - 1]
      ensures container != null ==> current == old(current) && Shape(container, container) && LastChildren(current, nodes)
      ensures container != null ==> nodes == old(nodes) && (allMatched <==> container == current)
      ensures container != null ==> unchanged(this) && unchanged(Lineage(current))
      ensures nodes <= old(nodes) <= nodes + {old(current)}
    {
      LineageInTree(root, nodes, current);
      FramesAt(root, nodes, current);
      var block, all, closes := Descend(input, at, start, Frames(current), rules);
      if closes {
        CodeIsCurrent(block);
        CloseFence();
        return null, false;
      }
      LineageDepth(current, block);
      LineageContains(current, block);
      LineageInTree(root, nodes, current);
      LastAbove(current, block, nodes);
      return block, all;
    }

    // ---------- the blocks a line starts ----------

    // The data of a fence at the first non-space.
    method FenceBehind(length: nat, input: string, at: LineCursor.Parser, ghost start: nat) returns (fence: Fence)
      requires at.Valid(input, start) && at.Scanned(input)
      ensures fence == FenceAt(input, at.At(), length)
    {
      fence := Fence(true, Peek(input, at.firstNonspace), if length > 255 then 255 else length, at.firstNonspace - at.offset);
    }

    // A thematic break takes the line up to its ending, so at least one byte.
    method SkipBreak(input: string, at: LineCursor.Parser, ghost start: nat)
      requires at.Valid(input, start) && at.Scanned(input) && ScanBreak(input, at.firstNonspace).0 > 0
      modifies at`offset, at`column, at`partiallyConsumedTab
      ensures at.Valid(input, start) && at.At() == LineCursor.BeforeEnd(input, old(at.At())) && at.offset > old(at.offset)
    {
      BreakAhead(input, at.At());
      at.ConsumeLine(input, start);
    }

    // The list an item continues, or a new one.
    method ListFor(container: Block, data: ListData, ghost matched: Block) returns (list: Block)
      requires Shape(container, matched)
      modifies this`nodes, container`open, container`content, Lineage(container)`children
      ensures Shape(list, matched) && list.kind == List
      ensures list == container <==> container.kind == List && ListsMatch(container.list, data)
      ensures list == container || fresh(list)
      ensures Lineage(list) <= {list} + Lineage(container)
      ensures CanContain(container.kind, Paragraph) ==> container.open
      ensures Frames(list) == ListOf(scan, old(Frames(container)), data)
      ensures nodes <= old(nodes) + {list} && old(nodes) <= nodes + {container}
    {
      list := container;
      if container.kind != List || !ListsMatch(container.list, data) {
        list := AddFrame(container, New(List).(list := data), matched);
      }
    }

    method AddItem(container: Block, data: ListData, ghost matched: Block) returns (child: Block)
      requires Shape(container, matched)
      modifies this`nodes, container`open, container`content, Lineage(container)`children
      ensures Shape(child, matched) && fresh(child) && child.kind == Item
      ensures forall x <- Lineage(child) :: x in Lineage(container) || fresh(x)
      ensures CanContain(container.kind, Paragraph) ==> container.open
      ensures Frames(child) == WithItem(scan, old(Frames(container)), data)
      ensures fresh(nodes - old(nodes)) && old(nodes) <= nodes + {container}
    {
      var list := ListFor(container, data, matched);
      child := AddFrame(list, New(Item).(list := data), matched);
    }

    // The padding computation and the data of the item.
    method ItemData(marker: Marker, ghost interrupts: bool, input: string, at: LineCursor.Parser, ghost start: nat) returns (data: ListData)
      requires at.Valid(input, start) && at.Scanned(input)
      requires marker.Marker? && marker == ListMarker(input, at.firstNonspace, interrupts)
      modifies at`offset, at`column, at`partiallyConsumedTab
      ensures at.Valid(input, start) && at.offset > old(at.offset)
      ensures (data, at.At()) == ItemAt(input, old(at.At()), marker.matched, marker.data)
    {
      MarkerBytes(input, at.firstNonspace, interrupts);
      var padding := at.ItemPadding(input, marker.matched, start);
      data := marker.data.(padding := padding, markerOffset := at.indent);
    }

    // resolve_reference_link_definitions, and the paragraph that becomes a heading
    method SetextHeading(container: Block, ghost matched: Block)
      requires Shape(container, matched) && container.kind == Paragraph
      modifies container`content, container`kind
      ensures Shape(container, matched)
      ensures container.content == scan.definitions(old(container.content))
      ensures container.kind == if BlankText(container.content) then Paragraph else Heading
      ensures Frames(container) == old(Frames(container))[|old(Frames(container))| - 1 := Underlined(scan, old(FrameOf(container)))]
    {
      ParentHolds(root, nodes, container);
      LineageStep(container, container.parent);
      container.content := scan.definitions(container.content);
      if !BlankText(container.content) {
        container.kind := Heading;
        forall n | n in nodes && n != root ensures HasParent(n, nodes) {
          assert old(HasParent(n, nodes));
        }
      }
    }

    // The conditions of open_new_blocks; a thematic break is only scanned for behind the memo.
    method Choose(kind: Kind, allMatched: bool, maybeLazy: bool, input: string, at: LineCursor.Parser, ghost start: nat)
      returns (chosen: Start)
      requires at.Valid(input, start) && KillExact(input, at.offset, thematicBreakKillPos)
      modifies at`firstNonspace, at`firstNonspaceColumn, at`indent, at`blank, this`thematicBreakKillPos
      ensures at.Valid(input, start) && at.Scanned(input) && KillExact(input, at.offset, thematicBreakKillPos)
      ensures chosen == ChoiceAt(scan, input, kind, at.At(), allMatched, maybeLazy)
    {
      at.FindFirstNonspace(input, start);
      var fn := at.firstNonspace;
      var indented := at.indent >= 4;
      if !indented {
        if Peek(input, fn) == '>' { return Quote; }
        var matched := scan.atxHeading(input, fn);
        if matched > 0 { return Atx(matched); }
        matched := scan.openFence(input, fn);
        if matched > 0 { return CodeFence(matched); }
        matched := scan.htmlStart(input, fn);
        if matched == 0 && kind != Paragraph {
          matched := scan.htmlStart7(input, fn);
        }
        if matched > 0 { return Html(matched); }
        if kind == Paragraph && scan.setextHeading(input, fn) > 0 { return Setext; }
        if !(kind == Paragraph && !allMatched) && thematicBreakKillPos <= fn {
          var (length, failed) := ScanBreak(input, fn);
          if length > 0 { return Rule; }
          KillMoves(input, at.offset, at.column);
          thematicBreakKillPos := failed;
        }
      }
      if (!indented || kind == List) && at.indent < 4 {
        var marker := ListMarker(input, fn, kind == Paragraph);
        if marker.Marker? { return Bullet(marker); }
      }
      chosen := if indented && !maybeLazy && !at.blank then Indented else NoStart;
    }

    // The choice as the rules of the line make it.
    method ChooseBy(kind: Kind, allMatched: bool, maybeLazy: bool, input: string, at: LineCursor.Parser, ghost start: nat, ghost rules: Rules)
      returns (chosen: BlockScan.Start)
      requires at.Valid(input, start) && KillExact(input, at.offset, thematicBreakKillPos) && Follows(rules, scan, input)
      modifies at`firstNonspace, at`firstNonspaceColumn, at`indent, at`blank, this`thematicBreakKillPos
      ensures at.Valid(input, start) && at.Scanned(input) && KillExact(input, at.offset, thematicBreakKillPos)
      ensures Fits(chosen, kind, input, at.firstNonspace)
      ensures chosen == rules.choose(kind, at.At(), allMatched, maybeLazy)
    {
      chosen := Choose(kind, allMatched, maybeLazy, input, at, start);
      AskChoice(rules, scan, input, kind, at.At(), allMatched, maybeLazy);
    }

    // What Begin needs to know of a choice.
    ghost predicate Fits(chosen: Start, kind: Kind, input: string, at: nat) {
      match chosen
      case Quote => Peek(input, at) == '>'
      case Setext => kind == Paragraph
      case Rule => ScanBreak(input, at).0 > 0
      case Bullet(marker) => marker.Marker? && marker == ListMarker(input, at, kind == Paragraph)
      case _ => true
    }

    // The underline of a setext heading is not part of its text.
    method BeginSetext(container: Block, ghost matched: Block, input: string, at: LineCursor.Parser, ghost start: nat, ghost rules: Rules)
      requires Follows(rules, scan, input)
      requires Shape(container, matched) && at.Valid(input, start) && container.kind == Paragraph
      modifies at`offset, at`column, at`partiallyConsumedTab, container`content, container`kind
      ensures at.Valid(input, start) && at.offset >= old(at.offset) && Shape(container, matched)
      ensures (Frames(container), at.At()) == rules.begin(Setext, old(Frames(container)), old(at.At()))
      ensures container.kind == Paragraph || container.kind == Heading
    {
      AskBegin(rules, scan, input, Setext, Frames(container), at.At());
      SetextHeading(container, matched);
      if container.kind == Heading {
        at.ConsumeLine(input, start);
      }
    }

    // The cursor moves behind what starts a block, and the block is described.
    method ConsumeStart(chosen: BlockScan.Start, ghost interrupts: bool, input: string, at: LineCursor.Parser, ghost start: nat, ghost rules: Rules)
      returns (f: Frame)
      requires Follows(rules, scan, input)
      requires at.Valid(input, start) && at.Scanned(input) && chosen != NoStart && chosen != Setext
      requires chosen == Quote ==> Peek(input, at.firstNonspace) == '>'
      requires chosen == Rule ==> ScanBreak(input, at.firstNonspace).0 > 0
      requires chosen.Bullet? ==> chosen.marker.Marker? && chosen.marker == ListMarker(input, at.firstNonspace, interrupts)
      modifies at`offset, at`column, at`partiallyConsumedTab
      ensures at.Valid(input, start) && at.offset >= old(at.offset)
      ensures f == rules.frame(chosen, old(at.At())) && at.At() == rules.move(chosen, old(at.At()))
      ensures WellDescribed(f) && Fills(chosen, f.kind)
      ensures chosen == Quote || chosen == Rule || chosen.Bullet? ==> at.offset > old(at.offset)
    {
      AskParts(rules, scan, input, chosen, at.At());
      match chosen
      case Quote =>
        f := New(BlockQuote);
        at.OpenBlockQuote(input, start);
      case Atx(length) =>
        f := New(Heading);
        at.ConsumeBehind(input, length, start);
      case CodeFence(length) =>
        var fence := FenceBehind(length, input, at, start);
        f := New(CodeBlock).(fence := fence);
        at.ConsumeBehind(input, length, start);
      case Html(htmlType) => f := New(HtmlBlock).(htmlType := htmlType);
      case Rule =>
        f := New(ThematicBreak);
        SkipBreak(input, at, start);
      case Bullet(marker) =>
        var data := ItemData(marker, interrupts, input, at, start);
        f := New(Item).(list := data);
      case Indented =>
        f := New(CodeBlock);
        at.ConsumeIndent(input, start);
    }

    // The block described is added where it fits.
    method AddStart(container: Block, f: Frame, ghost matched: Block, ghost input: string, ghost rules: Rules) returns (next: Block)
      requires Shape(container, matched) && WellDescribed(f) && Follows(rules, scan, input)
      modifies this`nodes, container`open, container`content, Lineage(container)`children
      ensures Shape(next, matched) && fresh(next)
      ensures Frames(next) == rules.add(old(Frames(container)), f) && next.kind == f.kind
      ensures CanContain(container.kind, Paragraph) ==> container.open
      ensures forall x <- Lineage(next) :: x in Lineage(container) || fresh(x)
      ensures fresh(nodes - old(nodes)) && old(nodes) <= nodes + {container}
    {
      AskAdd(rules, scan, input, Frames(container), f);
      if f.kind == Item {
        next := AddItem(container, f.list, matched);
      } else {
        next := AddFrame(container, f, matched);
      }
    }

    method Begin(chosen: BlockScan.Start, container: Block, ghost matched: Block, input: string, at: LineCursor.Parser, ghost start: nat,
                 ghost rules: Rules)
      returns (next: Block)
      requires Follows(rules, scan, input)
      requires Shape(container, matched) && at.Valid(input, start) && at.Scanned(input)
      requires Fits(chosen, container.kind, input, at.firstNonspace)
      modifies at`offset, at`column, at`partiallyConsumedTab
      modifies this`nodes, container`open, container`content, container`kind, Lineage(container)`children
      ensures at.Valid(input, start) && at.offset >= old(at.offset)
      ensures Shape(next, matched) && (Frames(next), at.At()) == rules.begin(chosen, old(Frames(container)), old(at.At()))
      ensures CanContain(container.kind, Paragraph) ==> container.open
      ensures if chosen == NoStart || chosen == Setext then next == container && nodes == old(nodes) && unchanged(nodes`children)
              else fresh(next)
      ensures next == container ==> old(container.kind) == Paragraph || unchanged(Lineage(container))
      ensures forall x <- Lineage(next) :: x in Lineage(container) || fresh(x)
      ensures chosen == Quote || chosen == Rule || chosen.Bullet? ==> at.offset > old(at.offset)
      ensures Fills(chosen, next.kind)
      ensures fresh(nodes - old(nodes)) && old(nodes) <= nodes + {container}
    {
      next := container;
      AskBegin(rules, scan, input, NoStart, Frames(container), at.At());
      if chosen == Setext {
        BeginSetext(container, matched, input, at, start, rules);
      } else if chosen != NoStart {
        ghost var (fs, d) := (Frames(container), rules.move(chosen, at.At()));
        BeginByParts(rules, scan, input, chosen, fs, at.At());
        var f := ConsumeStart(chosen, container.kind == Paragraph, input, at, start, rules);
        assert Frames(container) == fs && at.At() == d;
        next := AddStart(container, f, matched, input, rules);
      }
    }

    // A choice carried out, and whether the line may start another block inside.
    method Start(chosen: BlockScan.Start, container: Block, ghost o: Opening, ghost matched: Block,
                 input: string, at: LineCursor.Parser, ghost start: nat, ghost rules: Rules)
      returns (next: Block, more: bool)
      requires Shape(container, matched) && at.Valid(input, start) && at.Scanned(input) && Follows(rules, scan, input)
      requires Fits(chosen, container.kind, input, at.firstNonspace)
      requires o.frames == Frames(container) && o.cursor == at.At()
      modifies at`offset, at`column, at`partiallyConsumedTab
      modifies this`nodes, container`open, container`content, container`kind, Lineage(container)`children
      ensures at.Valid(input, start) && at.offset >= old(at.offset)
      ensures Shape(next, matched)
      ensures Opening(Frames(next), at.At(), o.begun || next != container, more) == Turned(rules, o, chosen)
      ensures CanContain(container.kind, Paragraph) ==> container.open
      ensures if next == container then nodes == old(nodes) && unchanged(nodes`children) else fresh(next)
      ensures next == container ==> old(container.kind) == Paragraph || unchanged(Lineage(container))
      ensures forall x <- Lineage(next) :: x in Lineage(container) || fresh(x)
      ensures fresh(nodes - old(nodes)) && old(nodes) <= nodes + {container}
      ensures more ==> !AcceptsLines(next.kind) && (next.kind == HtmlBlock || at.offset > old(at.offset))
    {
      next := Begin(chosen, container, matched, input, at, start, rules);
      more := chosen != NoStart && !AcceptsLines(next.kind);
    }

    // One turn of the loop of open_new_blocks.
    method TakeTurn(container: Block, ghost begun: bool, ghost matched: Block, allMatched: bool, maybeLazy: bool,
                    input: string, at: LineCursor.Parser, ghost start: nat, ghost rules: Rules)
      returns (next: Block, more: bool)
      requires Shape(container, matched) && at.Valid(input, start) && KillExact(input, at.offset, thematicBreakKillPos)
      requires Follows(rules, scan, input)
      modifies at, this`nodes, this`thematicBreakKillPos
      modifies container`open, container`content, container`kind, Lineage(container)`children
      ensures at.Valid(input, start) && KillExact(input, at.offset, thematicBreakKillPos)
      ensures Shape(next, matched)
      ensures var o := Opening(old(Frames(container)), old(at.At()), begun, true);
              Opening(Frames(next), at.At(), begun || next != container, more) == rules.turn(o, allMatched, maybeLazy)
      ensures CanContain(container.kind, Paragraph) ==> container.open
      ensures if next == container then nodes == old(nodes) && unchanged(nodes`children) else fresh(next)
      ensures next == container ==> old(container.kind) == Paragraph || unchanged(Lineage(container))
      ensures forall x <- Lineage(next) :: x in Lineage(container) || fresh(x)
      ensures fresh(nodes - old(nodes)) && old(nodes) <= nodes + {container}
      ensures more ==> !AcceptsLines(next.kind) && (next.kind == HtmlBlock || at.offset > old(at.offset))
    {
      ghost var o := Opening(Frames(container), at.At(), begun, true);
      var chosen := ChooseBy(container.kind, allMatched, maybeLazy, input, at, start, rules);
      AskTurn(rules, scan, input, o, allMatched, maybeLazy);
      next, more := Start(chosen, container, o, matched, input, at, start, rules);
    }

    // A block with an open block inside is no paragraph.
    lemma HoldsOthers(matched: Block)
      requires Shape(matched, matched) && LastChildren(current, nodes)
      ensures matched != current ==> matched.kind != Paragraph
    {
      if matched != current {
        var below := StepBelow(current, matched);
        ParentHolds(root, nodes, below);
      }
    }

    /** open_new_blocks: every block the line starts, each inside the one before. */
    method OpenNewBlocks(matched: Block, allMatched: bool, input: string, at: LineCursor.Parser, ghost start: nat, ghost rules: Rules)
      returns (container: Block)
      requires Shape(matched, matched) && LastChildren(current, nodes) && at.Valid(input, start) && thematicBreakKillPos == 0
      requires Follows(rules, scan, input)
      modifies at, this`nodes, this`thematicBreakKillPos
      modifies matched`open, matched`content, matched`kind, Lineage(matched)`children
      ensures at.Valid(input, start)
      ensures Shape(container, matched)
      ensures var o := AllOpened(rules, Opening(old(Frames(matched)), old(at.At()), false, true), allMatched, old(current.kind) == Paragraph);
              Frames(container) == o.frames && at.At() == o.cursor && (container != matched <==> o.begun)
      ensures CanContain(matched.kind, Paragraph) ==> matched.open
      ensures if container == matched then LastChildren(current, nodes) && nodes == old(nodes) else fresh(container)
      ensures container == matched ==> old(matched.kind) == Paragraph || unchanged(Lineage(matched))
      ensures forall x <- Lineage(container) :: x in Lineage(matched) || fresh(x)
      ensures fresh(nodes - old(nodes)) && old(nodes) <= nodes + {matched}
    {
      container := matched;
      var maybeLazy := current.kind == Paragraph;
      var more := true;
      ghost var end := AllOpened(rules, Opening(Frames(matched), at.At(), false, true), allMatched, maybeLazy);
      while more && container.kind != CodeBlock && container.kind != HtmlBlock
        invariant at.Valid(input, start) && KillExact(input, at.offset, thematicBreakKillPos)
        invariant Shape(container, matched)
        invariant AllOpened(rules, Opening(Frames(container), at.At(), container != matched, more), allMatched, maybeLazy) == end
        invariant CanContain(matched.kind, Paragraph) ==> matched.open
        invariant if container == matched then LastChildren(current, nodes) && nodes == old(nodes) else fresh(container)
        invariant container == matched ==> old(matched.kind) == Paragraph || unchanged(Lineage(matched))
        invariant forall x <- Lineage(container) :: x in Lineage(matched) || fresh(x)
        invariant fresh(nodes - old(nodes)) && old(nodes) <= nodes + {matched}
        decreases more && container.kind != HtmlBlock, |input| - at.offset
      {
        container, more := TakeTurn(container, container != matched, matched, allMatched, maybeLazy, input, at, start, rules);
        maybeLazy := false;
      }
    }

    // ---------- the text of a line ----------

    // add_line: only an open block takes text, and it takes exactly the columns of the line that are left.
    method AddLine(b: Block, input: string, at: LineCursor.Parser, ghost start: nat)
      requires Family(root, nodes) && b in nodes && b.open && at.Valid(input, start)
      modifies b`content, at`offset
      ensures Frames(b) == Extended(old(Frames(b)), Rest(input, old(at.At())))
    {
      LineageInTree(root, nodes, b);
      if b != root {
        ParentHolds(root, nodes, b);
        LineageStep(b, b.parent);
      }
      RestIsAdded(input, at.At());
      var content := at.AddLine(input, b.content, start);
      SetContent(b, content);
    }

    method SetContent(b: Block, content: string)
      requires b.parent != null && b.parent.depth < b.depth ==> b !in Lineage(b.parent)
      modifies b`content
      ensures Frames(b) == old(Frames(b))[|old(Frames(b))| - 1 := old(FrameOf(b)).(content := content)]
    {
      b.content := content;
    }

    /** A lazy continuation line: everything matched or not stays open. */
    method ContinueLazily(ghost matched: Block, input: string, at: LineCursor.Parser, ghost start: nat)
      requires Shape(matched, matched) && LastChildren(current, nodes) && current != matched && at.Valid(input, start)
      modifies current`content, at`offset
      ensures Valid()
      ensures Frames(current) == Extended(old(Frames(current)), Rest(input, old(at.At())))
    {
      LineageContains(current, matched);
      LineageStep(current, matched);
      AddLine(current, input, at, start);
    }

    // Closing the first of the unmatched blocks; only that one can be a paragraph.
    lemma SettledFirst(container: Block, matched: Block, frames: Chain, input: string, rules: Rules)
      requires Shape(container, matched) && (CanContain(matched.kind, Paragraph) ==> matched.open)
      requires Height(current) == current.depth + 1 && Follows(rules, scan, input)
      ensures current == matched ==> Settled(rules, Frames(current), matched.depth + 1, frames) == frames
      ensures current != matched ==> current.parent != null && matched.depth < current.depth
      ensures var settled := Settled(rules, Frames(current), matched.depth + 1, frames);
              current != matched ==>
                settled == if Gone(current) && current.parent in Lineage(container) then OneLess(frames, current.parent.depth) else frames
    {
      if current != matched {
        LineageStep(current, matched);
        var parent := current.parent;
        ParentHolds(root, nodes, current);
        LineageDepth(parent, matched);
        if parent in Lineage(matched) {
          LineageDepth(matched, parent);
        }
        AskFreed(rules, scan, input, Last(Frames(current)));
        assert Gone(current) ==> (parent in Lineage(container) <==> parent == matched);
      }
    }

    // Finalize the blocks that were not matched.
    method CloseUnmatched(ghost container: Block, matched: Block, ghost input: string, ghost rules: Rules)
      requires Shape(container, matched) && (CanContain(matched.kind, Paragraph) ==> matched.open)
      requires Height(current) == current.depth + 1 && Follows(rules, scan, input)
      modifies this`nodes, this`current, Lineage(current)`open, Lineage(current)`content, Lineage(current)`children
      ensures current == matched && Shape(container, matched)
      ensures Frames(container) == Settled(rules, old(Frames(current)), matched.depth + 1, old(Frames(container)))
      ensures nodes <= old(nodes) && forall b <- old(nodes) :: b in nodes || b in Lineage(old(current)) - Lineage(matched)
    {
      ghost var first := current;
      ghost var settled := Settled(rules, Frames(current), matched.depth + 1, Frames(container));
      SettledFirst(container, matched, Frames(container), input, rules);
      while current != matched
        invariant Shape(container, matched) && Lineage(current) <= Lineage(first)
        invariant nodes <= old(nodes) && forall b <- old(nodes) :: b in nodes || b in Lineage(first) - Lineage(matched)
        invariant if current == first then Frames(container) == old(Frames(container)) && Gone(current) == old(Gone(current))
                  else current.kind != Paragraph && Frames(container) == settled
        decreases current.depth
      {
        LineageStep(current, matched);
        CloseCurrent(container, matched);
      }
    }

    // A block's lines end with its end condition.
    method FillHtml(b: Block, ghost matched: Block, input: string, at: LineCursor.Parser, ghost start: nat) returns (container: Block)
      requires Shape(b, matched) && b.kind == HtmlBlock && at.Valid(input, start) && at.Scanned(input)
      modifies at`offset, this`nodes, b`open, b`content, Lineage(b)`children
      ensures Shape(container, matched) && nodes <= old(nodes) <= nodes + {b}
      ensures Frames(container) == Filled(scan, old(Frames(b)), input, old(at.At()))
    {
      LineageInTree(root, nodes, b);
      container := b;
      ghost var (fs, c) := (Frames(b), at.At());
      AddLine(b, input, at, start);
      if scan.htmlEnd(b.htmlType, input, at.firstNonspace) {
        container := CloseContainer(b, matched);
      }
      FilledHtml(scan, fs, input, c);
    }

    method AddParagraph(b: Block, ghost matched: Block, input: string, at: LineCursor.Parser, ghost start: nat, ghost text: string)
      returns (container: Block)
      requires Shape(b, matched) && at.Valid(input, start) && text == Rest(input, at.At())
      modifies at`offset, this`nodes, b`open, b`content, Lineage(b)`children
      ensures Shape(container, matched) && fresh(container)
      ensures Frames(container) == With(scan, old(Frames(b)), NewParagraph(text))
      ensures fresh(nodes - old(nodes)) && old(nodes) <= nodes + {b}
    {
      WithText(scan, Frames(b), text);
      container := AddFrame(b, New(Paragraph), matched);
      AddLine(container, input, at, start);
    }

    method FillParagraph(b: Block, ghost matched: Block, input: string, at: LineCursor.Parser, ghost start: nat, ghost text: string)
      returns (container: Block)
      requires Shape(b, matched) && at.Valid(input, start) && at.Scanned(input)
      requires text == Rest(input, LineCursor.Behind(input, at.At(), 0))
      modifies at`offset, at`column, at`partiallyConsumedTab
      modifies this`nodes, b`open, b`content, Lineage(b)`children
      ensures Shape(container, matched) && fresh(container)
      ensures Frames(container) == With(scan, old(Frames(b)), NewParagraph(text))
      ensures fresh(nodes - old(nodes)) && old(nodes) <= nodes + {b}
    {
      at.ConsumeBehind(input, 0, start);
      container := AddParagraph(b, matched, input, at, start, text);
    }

    // The block that takes the rest of the line.
    method FillContainer(b: Block, ghost matched: Block, input: string, at: LineCursor.Parser, ghost start: nat) returns (container: Block)
      requires Shape(b, matched) && at.Valid(input, start) && at.Scanned(input)
      modifies at`offset, at`column, at`partiallyConsumedTab
      modifies this`nodes, b`open, b`content, Lineage(b)`children
      ensures Shape(container, matched)
      ensures Frames(container) == Filled(scan, old(Frames(b)), input, old(at.At()))
      ensures fresh(nodes - old(nodes)) && old(nodes) <= nodes + {b}
    {
      container := b;
      if b.kind == CodeBlock {
        AddLine(b, input, at, start);
      } else if b.kind == HtmlBlock {
        container := FillHtml(b, matched, input, at, start);
      } else if at.blank {
      } else if AcceptsLines(b.kind) {
        at.ConsumeBehind(input, 0, start);
        AddLine(b, input, at, start);
      } else {
        container := FillParagraph(b, matched, input, at, start, Rest(input, LineCursor.Behind(input, at.At(), 0)));
      }
    }

    method FillBy(b: Block, ghost matched: Block, input: string, at: LineCursor.Parser, ghost start: nat, ghost rules: Rules)
      returns (container: Block)
      requires Shape(b, matched) && at.Valid(input, start) && at.Scanned(input) && Follows(rules, scan, input)
      modifies at`offset, at`column, at`partiallyConsumedTab
      modifies this`nodes, b`open, b`content, Lineage(b)`children
      ensures Shape(container, matched)
      ensures Frames(container) == rules.fill(old(Frames(b)), old(at.At()))
      ensures fresh(nodes - old(nodes)) && old(nodes) <= nodes + {b}
    {
      AskFill(rules, scan, input, Frames(b), at.At());
      container := FillContainer(b, matched, input, at, start);
    }

    // The text of a line that is no lazy continuation.
    method CloseAndFill(container: Block, matched: Block, input: string, at: LineCursor.Parser, ghost start: nat, ghost rules: Rules)
      requires Shape(container, matched) && at.Valid(input, start) && at.Scanned(input)
      requires CanContain(matched.kind, Paragraph) ==> matched.open
      requires Height(current) == current.depth + 1 && Follows(rules, scan, input)
      modifies at`offset, at`column, at`partiallyConsumedTab, this`nodes, this`current
      modifies Lineage(current)`open, Lineage(current)`content, Lineage(current)`children
      modifies container`open, container`content, Lineage(container)`children
      ensures Valid()
      ensures Frames(current) == rules.fill(Settled(rules, old(Frames(current)), matched.depth + 1, old(Frames(container))), old(at.At()))
      ensures fresh(nodes - old(nodes))
      ensures forall b <- old(nodes) :: b in nodes || b in Lineage(old(current)) || b == container
    {
      ghost var (settled, c) := (Settled(rules, Frames(current), matched.depth + 1, Frames(container)), at.At());
      ghost var above := Lineage(current);
      CloseUnmatched(container, matched, input, rules);
      assert Frames(container) == settled && at.At() == c;
      assert nodes <= old(nodes) && forall b <- old(nodes) :: b in nodes || b in above;
      var filled := FillBy(container, matched, input, at, start, rules);
      assert Frames(filled) == rules.fill(settled, c);
      GoOnIn(filled, matched);
    }

    // The innermost open block becomes the current one.
    method GoOnIn(filled: Block, ghost matched: Block)
      requires Shape(filled, matched) && current == matched
      modifies this`current
      ensures Valid() && current == filled && Frames(filled) == old(Frames(filled))
    {
      OpenedHere(nodes, filled, current);
      current := filled;
    }

    // add_text_to_container
    method AddText(container: Block, matched: Block, input: string, at: LineCursor.Parser, ghost start: nat, ghost o: Opening, ghost rules: Rules)
      requires Shape(container, matched) && at.Valid(input, start)
      requires container == matched ==> LastChildren(current, nodes)
      requires CanContain(matched.kind, Paragraph) ==> matched.open
      requires Height(current) == current.depth + 1 && Follows(rules, scan, input)
      requires o.frames == Frames(container) && o.cursor == at.At() && (o.begun <==> container != matched)
      modifies at, this`nodes, this`current
      modifies Lineage(current)`open, Lineage(current)`content, Lineage(current)`children
      modifies container`open, container`content, Lineage(container)`children
      ensures Valid()
      ensures Frames(current) == Texted(rules, old(Frames(current)), matched.depth + 1, o)
      ensures fresh(nodes - old(nodes))
      ensures forall b <- old(nodes) :: b in nodes || b in Lineage(old(current)) || b == container
    {
      ghost var (fs, above) := (Frames(current), Lineage(current));
      at.FindFirstNonspace(input, start);
      assert Frames(container) == o.frames && at.At() == o.cursor;
      assert above == Lineage(current) && Frames(current) == fs;
      AddScanned(container, matched, input, at, start, o, rules);
    }

    method AddScanned(container: Block, matched: Block, input: string, at: LineCursor.Parser, ghost start: nat, ghost o: Opening, ghost rules: Rules)
      requires Shape(container, matched) && at.Valid(input, start) && at.Scanned(input)
      requires container == matched ==> LastChildren(current, nodes)
      requires CanContain(matched.kind, Paragraph) ==> matched.open
      requires Height(current) == current.depth + 1 && Follows(rules, scan, input)
      requires o.frames == Frames(container) && o.cursor == at.At() && (o.begun <==> container != matched)
      modifies at`offset, at`column, at`partiallyConsumedTab, this`nodes, this`current
      modifies Lineage(current)`open, Lineage(current)`content, Lineage(current)`children
      modifies container`open, container`content, Lineage(container)`children
      ensures Valid()
      ensures Frames(current) == Texted(rules, old(Frames(current)), matched.depth + 1, o)
      ensures fresh(nodes - old(nodes))
      ensures forall b <- old(nodes) :: b in nodes || b in Lineage(old(current)) || b == container
    {
      SettledFirst(container, matched, o.frames, input, rules);
      AskText(rules, scan, input, at.At());
      if current != matched && container == matched && !at.blank && current.kind == Paragraph {
        ContinueLazily(matched, input, at, start);
      } else {
        CloseAndFill(container, matched, input, at, start, rules);
      }
    }

    // ---------- lines and documents ----------

    /** S_process_line: between lines open are exactly the current block and its holders, and they are what the line makes of
        those before; blocks closed before are untouched. */
    method ProcessLine(line: string)
      requires Valid()
      modifies this, Lineage(current)`open, Lineage(current)`content, Lineage(current)`kind, Lineage(current)`children
      ensures Valid() && lineNumber == old(lineNumber) + 1
      ensures Frames(current) == Processed(scan, old(Frames(current)), line, old(lineNumber))
      ensures fresh(nodes - old(nodes))
      ensures forall b <- old(nodes) :: !old(b.open) ==> b in nodes && unchanged(b)
    {
      var input := if line == "" || !LineEnd(line[|line| - 1]) then line + "\n" else line;
      ghost var start := LineCursor.TextStart(input, lineNumber);
      ghost var after := ProcessedIs(scan, Frames(current), line, lineNumber, input, Cursor(start, 0, false));
      var at := NextLine(input);
      ProcessInput(input, at, start, after);
    }

    // The cursor of a new line.
    method NextLine(input: string) returns (at: LineCursor.Parser)
      requires Valid()
      modifies this`lineNumber, this`thematicBreakKillPos
      ensures Valid() && Frames(current) == old(Frames(current))
      ensures lineNumber == old(lineNumber) + 1 && thematicBreakKillPos == 0 && fresh(at)
      ensures var start := LineCursor.TextStart(input, old(lineNumber)); at.Valid(input, start) && at.At() == Cursor(start, 0, false)
    {
      at := new LineCursor.Parser(input, lineNumber);
      thematicBreakKillPos := 0;
      lineNumber := lineNumber + 1;
    }

    // A line with its ending, from where its text begins.
    method ProcessInput(input: string, at: LineCursor.Parser, ghost start: nat, ghost after: Chain)
      requires Valid() && at.Valid(input, start) && thematicBreakKillPos == 0
      requires IsLine(scan, input, Frames(current), at.At(), after)
      modifies at, this`nodes, this`current, this`thematicBreakKillPos
      modifies Lineage(current)`open, Lineage(current)`content, Lineage(current)`kind, Lineage(current)`children
      ensures Valid() && Frames(current) == after
      ensures fresh(nodes - old(nodes))
      ensures forall b <- old(nodes) :: !old(b.open) ==> b in nodes && unchanged(b)
    {
      assert forall b <- nodes :: !b.open ==> b !in Lineage(current);
      ghost var rules := LineRules(scan, input, Frames(current), at.At(), after);
      var matched, allMatched := CheckOpenBlocks(input, at, start, rules);
      if matched != null {
        OpenAndFill(matched, allMatched, input, at, start, rules);
      }
    }

    // What a line does behind the prefixes.
    method OpenAndFill(matched: Block, allMatched: bool, input: string, at: LineCursor.Parser, ghost start: nat, ghost rules: Rules)
      requires Shape(matched, matched) && LastChildren(current, nodes) && at.Valid(input, start) && thematicBreakKillPos == 0
      requires (allMatched <==> matched == current) && Follows(rules, scan, input)
      modifies at, this`nodes, this`current, this`thematicBreakKillPos
      modifies Lineage(current)`open, Lineage(current)`content, Lineage(current)`kind, Lineage(current)`children
      ensures Valid()
      ensures 0 < matched.depth + 1 <= |old(Frames(current))|
      ensures Frames(current) == Continued(rules, old(Frames(current)), matched.depth + 1, old(at.At()))
      ensures fresh(nodes - old(nodes))
      ensures forall b <- old(nodes) :: b in nodes || b in Lineage(old(current))
    {
      LineageContains(current, matched);
      LineageInTree(root, nodes, current);
      FramesAt(root, nodes, current);
      FramesAt(root, nodes, matched);
      FramesPrefix(current, matched);
      LineageDepth(current, matched);
      OpenThenFill(matched, allMatched, input, at, start, rules);
    }

    // Starting blocks changes nothing that a lazy continuation needs.
    method OpenBeforeText(matched: Block, allMatched: bool, input: string, at: LineCursor.Parser, ghost start: nat,
                          ghost o: Opening, ghost rules: Rules)
      returns (container: Block)
      requires Shape(matched, matched) && LastChildren(current, nodes) && at.Valid(input, start) && thematicBreakKillPos == 0
      requires Height(current) == current.depth + 1 && Follows(rules, scan, input)
      requires o == AllOpened(rules, Opening(Frames(matched), at.At(), false, true), allMatched, current.kind == Paragraph)
      modifies at, this`nodes, this`thematicBreakKillPos
      modifies matched`open, matched`content, matched`kind, Lineage(matched)`children
      ensures at.Valid(input, start)
      ensures Shape(container, matched)
      ensures Frames(container) == o.frames && at.At() == o.cursor && (container != matched <==> o.begun)
      ensures CanContain(matched.kind, Paragraph) ==> matched.open
      ensures container == matched ==> LastChildren(current, nodes)
      ensures container == matched || fresh(container)
      ensures Texted(rules, Frames(current), matched.depth + 1, o) == Texted(rules, old(Frames(current)), matched.depth + 1, o)
      ensures forall x <- Lineage(container) :: x in Lineage(matched) || fresh(x)
      ensures fresh(nodes - old(nodes)) && old(nodes) <= nodes + {matched}
    {
      ghost var (fs, last) := (Frames(current), FrameOf(current));
      HoldsOthers(matched);
      if matched != current {
        LineageStep(current, matched);
      }
      assert matched != current ==> current !in Lineage(matched);
      container := OpenNewBlocks(matched, allMatched, input, at, start, rules);
      assert matched != current ==> FrameOf(current) == last;
      assert matched != current ==> Last(Frames(current)) == Last(fs) && (container == matched ==> Frames(current) == fs);
      TextedSame(rules, fs, Frames(current), matched.depth + 1, o);
    }

    method OpenThenFill(matched: Block, allMatched: bool, input: string, at: LineCursor.Parser, ghost start: nat, ghost rules: Rules)
      requires Shape(matched, matched) && LastChildren(current, nodes) && at.Valid(input, start) && thematicBreakKillPos == 0
      requires Height(current) == current.depth + 1 && Follows(rules, scan, input)
      modifies at, this`nodes, this`current, this`thematicBreakKillPos
      modifies Lineage(current)`open, Lineage(current)`content, Lineage(current)`kind, Lineage(current)`children
      ensures Valid()
      ensures var o := AllOpened(rules, Opening(old(Frames(matched)), old(at.At()), false, true), allMatched, old(current.kind) == Paragraph);
              Frames(current) == Texted(rules, old(Frames(current)), matched.depth + 1, o)
      ensures fresh(nodes - old(nodes))
      ensures forall b <- old(nodes) :: b in nodes || b in Lineage(old(current))
    {
      LineageContains(current, matched);
      ghost var o := AllOpened(rules, Opening(Frames(matched), at.At(), false, true), allMatched, current.kind == Paragraph);
      var container := OpenBeforeText(matched, allMatched, input, at, start, o, rules);
      AddText(container, matched, input, at, start, o, rules);
    }

    /** finalize_document: every block that was still open is finalized, the document last. */
    method FinalizeDocument()
      requires Valid()
      modifies this`nodes, this`current, Lineage(current)`open, Lineage(current)`content, Lineage(current)`children
      ensures Family(root, nodes) && current == root
      ensures forall b <- nodes :: !b.open
      ensures nodes <= old(nodes) && forall b <- old(nodes) :: !old(b.open) ==> b in nodes && unchanged(b)
    {
      LineageInTree(root, nodes, current);
      LineageContains(current, root);
      LastAbove(current, root, nodes);
      FramesAt(root, nodes, current);
      CloseUnmatched(root, root, "", RulesOf(scan, ""));
      var _ := Finalize(root);
    }
  }

  /** The open blocks after any lines are those of the run on values. */
  method ProcessLines(scan: Scanners, lines: seq<string>) returns (parser: Parser)
    ensures fresh(parser) && parser.Valid() && forall b <- parser.nodes :: fresh(b)
    ensures Frames(parser.current) == Run(scan, lines)
  {
    parser := new Parser(scan);
    for i := 0 to |lines|
      invariant fresh(parser) && fresh(parser.nodes) && parser.scan == scan
      invariant parser.Valid() && parser.lineNumber == i
      invariant Frames(parser.current) == Run(scan, lines[..i])
    {
      LineageInTree(parser.root, parser.nodes, parser.current);
      NextRun(scan, lines, i);
      parser.ProcessLine(lines[i]);
    }
    assert lines == lines[..|lines|];
  }

  /** Any lines at all make a well-formed tree of closed blocks. */
  method ParseLines(scan: Scanners, lines: seq<string>) returns (parser: Parser)
    ensures fresh(parser) && Family(parser.root, parser.nodes)
    ensures forall b <- parser.nodes :: fresh(b) && !b.open
  {
    parser := ProcessLines(scan, lines);
    LineageInTree(parser.root, parser.nodes, parser.current);
    parser.FinalizeDocument();
  }
}
