/** The sibling part of S_insert_emph on the pointers of the nodes: what stands between the two text nodes moves below a new
    node, which takes its place. */
module EmphNodes {

  import Emphasis
  import opened NodeTree
  import opened TreeShape

  // ---------- what the nodes show ----------

  // The inline content that a node stands for.
  type View = map<Node, Emphasis.Inline>

  ghost predicate ShowAll(c: seq<Node>, ns: seq<Emphasis.Inline>, v: View) {
    |c| == |ns| && forall i | 0 <= i < |c| :: c[i] in v && v[c[i]] == ns[i]
  }

  ghost predicate Shows(n: Node, v: View)
    requires n in v
    reads n`children, n`literal
  {
    match v[n]
    case Leaf(src) => n.children == [] && (n.kind == Text ==> n.literal == src)
    case Emph(_, kids) => n.kind == Kind.Emph && ShowAll(n.children, kids, v)
    case Strong(_, kids) => n.kind == Kind.Strong && ShowAll(n.children, kids, v)
    case Link(image, kids, _) => n.kind == (if image then Image else Kind.Link) && ShowAll(n.children, kids, v)
  }

  ghost predicate Viewed(v: View, nodes: set<Node>)
    reads nodes
  {
    forall n <- v :: n in nodes && Shows(n, v)
  }

  // ---------- lists without repeats ----------

  ghost predicate Distinct(c: seq<Node>) {
    forall i, j | 0 <= i < j < |c| :: c[i] != c[j]
  }

  lemma ListDistinct(p: Node, c: seq<Node>)
    requires p.Wired(c)
    ensures Distinct(c)
  {
    forall i, j | 0 <= i < j < |c| ensures c[i] != c[j] {
      SlotsDiffer(p, c, i, j);
    }
  }

  lemma LessAt(c: seq<Node>, k: nat)
    requires Distinct(c) && k < |c|
    ensures Position(c, c[k]) == k && Less(c, c[k]) == c[..k] + c[k + 1..]
  {
    var j := Position(c, c[k]);
    assert c[j] == c[k];
  }

  // ---------- nodes above a node ----------

  // A set that holds the parents of its nodes holds all that is above them.
  lemma {:induction false} LineageWithin(n: Node, up: set<Node>, nodes: set<Node>)
    requires Tree(nodes) && up <= nodes && n in up && forall x <- up :: x.parent != null ==> x.parent in up
    ensures Lineage(n, nodes) <= up
    decreases n.rank
  {
    assert n.Home(nodes);
    if n.parent != null {
      LineageWithin(n.parent, up, nodes);
    }
  }

  lemma {:induction false} LineageRanks(n: Node, nodes: set<Node>)
    requires Tree(nodes) && n in nodes
    ensures forall x <- Lineage(n, nodes) :: x.rank <= n.rank && (x.parent != null ==> x.parent in Lineage(n, nodes))
    decreases n.rank
  {
    assert n.Home(nodes);
    if n.parent != null {
      LineageRanks(n.parent, nodes);
    }
  }

  // What holds text holds every inline node, and so may hold an emphasis.
  lemma TextHolder(parent: Kind, child: Kind)
    requires MayHold(parent, Text) && MayHold(parent, child)
    ensures MayHold(parent, Kind.Emph) && MayHold(parent, Kind.Strong)
    ensures MayHold(Kind.Emph, child) && MayHold(Kind.Strong, child)
  {
  }

  // ---------- moving the nodes between ----------

  // The children of p from i + 1 up to m have become those of emph.
  ghost predicate Moved(p: Node, emph: Node, c: seq<Node>, i: nat, m: nat)
    requires i < m <= |c|
    reads p`children, emph`children
  {
    p.children == c[..i + 1] + c[m..] && emph.children == c[i + 1..m]
  }

  // The first node behind the opener.
  lemma NextMoved(p: Node, emph: Node, c: seq<Node>, i: nat, m: nat, nodes: set<Node>)
    requires Tree(nodes) && p in nodes && emph in nodes && p != emph && i < m < |c| && Moved(p, emph, c, i, m)
    ensures p.children[i + 1] == c[m] && c[m] in nodes && c[m].parent == p && c[m].next == At(c, m + 1) && c[i].next == c[m]
    ensures Less(p.children, c[m]) == c[..i + 1] + c[m + 1..] && MayHold(p.kind, c[m].kind)
    ensures forall n <- nodes :: n != p ==> Less(n.children, c[m]) == n.children
  {
    assert p.Keeps(nodes) && p.children[i + 1] == c[m] && p.children[i] == c[i];
    assert p.Slot(p.children, i + 1) && p.Slot(p.children, i);
    ListDistinct(p, p.children);
    LessAt(p.children, i + 1);
    assert p.children[..i + 1] == c[..i + 1] && p.children[i + 2..] == c[m + 1..];
    assert c[m].Home(nodes);
    forall n | n in nodes && n != p ensures c[m] !in n.children {
      Childless(n, c[m], nodes);
    }
  }

  // One turn of the loop.
  method MoveOne(tmp: Node, emph: Node, ghost p: Node, ghost c: seq<Node>, ghost i: nat, ghost m: nat, ghost nodes: set<Node>)
    requires Tree(nodes) && p in nodes && emph in nodes && p != emph && emph.parent == null && i < m < |c| && tmp == c[m]
    requires Moved(p, emph, c, i, m) && MayHold(p.kind, Text) && (emph.kind == Kind.Emph || emph.kind == Kind.Strong)
    modifies nodes`next, nodes`prev, nodes`firstChild, nodes`lastChild, nodes`children, nodes`rank, tmp`parent
    ensures Tree(nodes) && Moved(p, emph, c, i, m + 1)
    ensures forall n <- nodes :: n != p && n != emph ==> n.children == old(n.children)
  {
    NextMoved(p, emph, c, i, m, nodes);
    TextHolder(p.kind, tmp.kind);
    assert Lineage(emph, nodes) == {emph};
    var ok := AppendChild(emph, tmp, nodes);
    assert emph.children == c[i + 1..m] + [tmp] == c[i + 1..m + 1];
  }

  // The node and the one to go on with.
  method MoveNext(tmp: Node, emph: Node, ghost p: Node, ghost c: seq<Node>, ghost i: nat, ghost m: nat, ghost nodes: set<Node>)
    returns (tmpnext: Node?)
    requires Tree(nodes) && p in nodes && emph in nodes && p != emph && emph.parent == null && i < m < |c| && tmp == c[m]
    requires Moved(p, emph, c, i, m) && MayHold(p.kind, Text) && (emph.kind == Kind.Emph || emph.kind == Kind.Strong)
    modifies nodes`next, nodes`prev, nodes`firstChild, nodes`lastChild, nodes`children, nodes`rank, tmp`parent
    ensures tmpnext == At(c, m + 1) && Tree(nodes) && Moved(p, emph, c, i, m + 1) && emph.parent == null
    ensures forall n <- nodes :: n != p && n != emph ==> n.children == old(n.children)
  {
    NextMoved(p, emph, c, i, m, nodes);
    tmpnext := tmp.next;
    MoveOne(tmp, emph, p, c, i, m, nodes);
  }

  lemma StartMoved(p: Node, emph: Node, c: seq<Node>, i: nat, nodes: set<Node>)
    requires Tree(nodes) && p in nodes && p.children == c && emph.children == [] && i + 1 < |c|
    ensures Moved(p, emph, c, i, i + 1) && c[i].next == c[i + 1] && Distinct(c)
  {
    assert p.Keeps(nodes) && p.Slot(c, i);
    ListDistinct(p, c);
    assert c[..i + 1] + c[i + 1..] == c && c[i + 1..i + 1] == [];
  }

  // The nodes between the opener and the closer, none of which is above p.
  method MoveBetween(emph: Node, opener: Node, closer: Node, ghost p: Node, ghost c: seq<Node>, ghost i: nat, ghost j: nat,
                     ghost between: set<Node>, ghost nodes: set<Node>)
    requires Tree(nodes) && p in nodes && emph in nodes && p != emph && emph.parent == null && emph.children == []
    requires MayHold(p.kind, Text) && (emph.kind == Kind.Emph || emph.kind == Kind.Strong)
    requires p.children == c && i < j < |c| && c[i] == opener && c[j] == closer
    requires emph !in between && forall k | i < k < j :: c[k] in between
    modifies nodes`next, nodes`prev, nodes`firstChild, nodes`lastChild, nodes`children, nodes`rank
    modifies between`parent
    ensures Tree(nodes) && Moved(p, emph, c, i, j)
    ensures forall n <- nodes :: n != p && n != emph ==> n.children == old(n.children)
  {
    StartMoved(p, emph, c, i, nodes);
    ghost var m := i + 1;
    var tmp := opener.next;
    while tmp != null && tmp != closer
      invariant i < m <= j && tmp == c[m]
      invariant Tree(nodes) && Moved(p, emph, c, i, m)
      invariant emph.parent == null
      invariant forall n <- nodes :: n != p && n != emph ==> n.children == old(n.children)
      decreases j - m
    {
      assert m < j && tmp in between;
      tmp := MoveNext(tmp, emph, p, c, i, m, nodes);
      m := m + 1;
    }
  }

  // A new node belongs to every tree.
  lemma WithNew(nodes: set<Node>, x: Node)
    requires Tree(nodes) && x !in nodes && x.children == [] && x.firstChild == x.lastChild == x.parent == x.prev == x.next == null
    ensures Tree(nodes + {x})
  {
    var all := nodes + {x};
    forall n | n in all ensures n.Home(all) && n.Keeps(all) {
      assert n != x ==> n.Home(nodes) && n.Keeps(nodes);
    }
  }

  /** The splice of S_insert_emph: the new node stands behind the opener with all between opener and closer below it, and the
      pointers agree everywhere. */
  method Splice(opener: Node, closer: Node, two: bool, ghost nodes: set<Node>) returns (emph: Node, ghost now: set<Node>)
    requires Tree(nodes) && opener in nodes && opener.kind == Text && opener.parent != null
    requires opener in opener.parent.children && closer in opener.parent.children
    requires Position(opener.parent.children, opener) < Position(opener.parent.children, closer)
    modifies nodes`next, nodes`prev, nodes`firstChild, nodes`lastChild, nodes`children, nodes`rank, nodes`parent
    ensures fresh(emph) && emph.kind == (if two then Kind.Strong else Kind.Emph) && now == nodes + {emph} && Tree(now)
    ensures var (p, c) := (old(opener.parent), old(opener.parent.children));
            var (i, j) := (Position(c, opener), Position(c, closer));
            && p in nodes && p.children == c[..i + 1] + [emph] + c[j..] && emph.children == c[i + 1..j]
            && forall n <- nodes :: n != p ==> n.children == old(n.children)
  {
    ghost var (p, c) := (opener.parent, opener.parent.children);
    ghost var (i, j) := (Position(c, opener), Position(c, closer));
    assert opener.Home(nodes) && p.Keeps(nodes);
    ghost var up := Lineage(p, nodes);
    LineageRanks(p, nodes);
    forall x | x in c[i + 1..j] ensures x !in up {
      ChildOf(p, c, x);
      assert x.Home(nodes);
    }
    emph := new Node(if two then Kind.Strong else Kind.Emph);
    now := nodes + {emph};
    WithNew(nodes, emph);
    ghost var between := set k | i < k < j :: c[k];
    MoveBetween(emph, opener, closer, p, c, i, j, between, now);
    Behind(p, emph, c, i, j, now);
    LineageWithin(p, up, now);
    TextHolder(p.kind, Text);
    var ok := InsertAfter(opener, emph, now);
  }

  // Where the opener stands when the nodes behind it have moved.
  lemma Behind(p: Node, emph: Node, c: seq<Node>, i: nat, j: nat, nodes: set<Node>)
    requires Tree(nodes) && p in nodes && emph in nodes && emph.parent == null && i < j <= |c| && Moved(p, emph, c, i, j)
    ensures c[i] in nodes && c[i].parent == p && Position(p.children, c[i]) == i && c[i] != emph
    ensures forall n <- nodes :: Less(n.children, emph) == n.children
    ensures Inserted(p.children, i + 1, emph) == c[..i + 1] + [emph] + c[j..]
  {
    assert p.Keeps(nodes) && p.children[i] == c[i] && p.Slot(p.children, i);
    ListDistinct(p, p.children);
    LessAt(p.children, i);
    forall n | n in nodes ensures emph !in n.children {
      Childless(n, emph, nodes);
    }
    assert p.children[..i + 1] == c[..i + 1] && p.children[i + 1..] == c[j..];
  }

  // ---------- freeing ----------

  // cmark_node_free, of a text node
  method FreeText(x: Node, ghost nodes: set<Node>)
    requires Tree(nodes) && x in nodes && x.children == []
    modifies nodes`firstChild, nodes`lastChild, nodes`children, nodes`next, nodes`prev, x`parent
    ensures Tree(nodes - {x})
    ensures forall n <- nodes :: n != x ==> n.children == Less(old(n.children), x)
  {
    var freed := Free(x, nodes);
    assert (set y <- freed) == {x};
  }

  // ---------- what the siblings show afterwards ----------

  lemma {:induction false} StripAt(items: seq<Emphasis.Item>, k: nat)
    requires k < |items|
    ensures Emphasis.StripAll(items)[k] == Emphasis.Strip(items[k])
  {
    if k > 0 {
      StripAt(items[1..], k - 1);
    }
  }

  // A run with what is left of it.
  function Rest(it: Emphasis.Item, use: nat): Emphasis.Inline
    requires it.Run? && use <= it.left
  {
    Emphasis.Leaf(Emphasis.Rep(it.d.ch, it.left - use))
  }

  // A step of process_emphasis as the siblings show it: the item r and the first behind are runs, text nodes of the same parent.
  ghost predicate Ready(p: Node, opener: Node, closer: Node, s: Emphasis.State, r: nat, v: View, nodes: set<Node>)
    reads nodes, p, opener, closer
  {
    && Tree(nodes) && Viewed(v, nodes) && p in nodes && p !in v
    && Emphasis.WfState(s) && s.right != [] && s.right[0].Run? && r < |s.left| && s.left[r].Run?
    && ShowAll(p.children, Emphasis.StripAll(s.left + s.right), v)
    && p.children[r] == opener && p.children[|s.left|] == closer && opener.kind == closer.kind == Text
  }

  lemma ReadyRuns(p: Node, opener: Node, closer: Node, s: Emphasis.State, r: nat, v: View, nodes: set<Node>)
    requires Ready(p, opener, closer, s, r, v, nodes)
    ensures opener in nodes && closer in nodes && opener.parent == closer.parent == p && opener != closer
    ensures Position(p.children, opener) == r && Position(p.children, closer) == |s.left|
    ensures opener.children == closer.children == []
    ensures opener.literal == Emphasis.Rep(s.left[r].d.ch, s.left[r].left) && s.left[r].left > 0
    ensures closer.literal == Emphasis.Rep(s.right[0].d.ch, s.right[0].left) && s.right[0].left > 0
  {
    var items := s.left + s.right;
    assert items[r] == s.left[r] && items[|s.left|] == s.right[0];
    StripAt(items, r);
    StripAt(items, |s.left|);
    assert p.Keeps(nodes);
    ListDistinct(p, p.children);
    LessAt(p.children, r);
    LessAt(p.children, |s.left|);
    ChildOf(p, p.children, opener);
    ChildOf(p, p.children, closer);
    assert Shows(opener, v) && Shows(closer, v);
    assert s.left[r] in s.left && s.right[0] in s.right;
    assert Emphasis.WfItem(s.left[r]) && Emphasis.WfItem(s.right[0]);
  }

  lemma ShowSlice(c: seq<Node>, items: seq<Emphasis.Item>, v: View, a: nat, b: nat, w: View)
    requires ShowAll(c, Emphasis.StripAll(items), v) && a <= b <= |c|
    requires forall k | a <= k < b :: c[k] in w && w[c[k]] == v[c[k]]
    ensures ShowAll(c[a..b], Emphasis.StripAll(items[a..b]), w)
  {
    forall k | 0 <= k < b - a ensures c[a..b][k] in w && w[c[a..b][k]] == Emphasis.StripAll(items[a..b])[k] {
      StripAt(items[a..b], k);
      StripAt(items, a + k);
      assert c[a..b][k] == c[a + k];
    }
  }

  lemma ShowJoin(a: seq<Node>, x: seq<Emphasis.Inline>, b: seq<Node>, y: seq<Emphasis.Inline>, v: View)
    requires ShowAll(a, x, v) && ShowAll(b, y, v)
    ensures ShowAll(a + b, x + y, v)
  {
    forall k | 0 <= k < |a + b| ensures (a + b)[k] in v && v[(a + b)[k]] == (x + y)[k] {
      assert if k < |a| then (a + b)[k] == a[k] else (a + b)[k] == b[k - |a|];
    }
  }

  lemma ShowConcat(a: seq<Node>, x: seq<Emphasis.Item>, b: seq<Node>, y: seq<Emphasis.Item>, v: View)
    requires ShowAll(a, Emphasis.StripAll(x), v) && ShowAll(b, Emphasis.StripAll(y), v)
    ensures ShowAll(a + b, Emphasis.StripAll(x + y), v)
  {
    Emphasis.StripConcat(x, y);
    ShowJoin(a, Emphasis.StripAll(x), b, Emphasis.StripAll(y), v);
  }

  lemma ShowFive(a: seq<Node>, b: seq<Node>, c: seq<Node>, d: seq<Node>, e: seq<Node>, x: seq<Emphasis.Item>, y: seq<Emphasis.Item>,
                 z: seq<Emphasis.Item>, t: seq<Emphasis.Item>, u: seq<Emphasis.Item>, v: View)
    requires ShowAll(a, Emphasis.StripAll(x), v) && ShowAll(b, Emphasis.StripAll(y), v) && ShowAll(c, Emphasis.StripAll(z), v)
    requires ShowAll(d, Emphasis.StripAll(t), v) && ShowAll(e, Emphasis.StripAll(u), v)
    ensures ShowAll(a + b + c + d + e, Emphasis.StripAll((x + y + z) + (t + u)), v)
  {
    ShowConcat(a, x, b, y, v);
    ShowConcat(a + b, x + y, c, z, v);
    ShowConcat(d, t, e, u, v);
    ShowConcat(a + b + c, x + y + z, d + e, t + u, v);
    assert a + b + c + d + e == (a + b + c) + (d + e);
  }

  lemma ShowOne(n: Node, it: Emphasis.Item, v: View)
    requires n in v && v[n] == Emphasis.Strip(it)
    ensures ShowAll([n], Emphasis.StripAll([it]), v)
  {
    StripAt([it], 0);
  }

  // A text node is kept while it has characters.
  function Kept(n: Node, left: nat): seq<Node> {
    if left > 0 then [n] else []
  }

  lemma ShowSpent(n: Node, it: Emphasis.Item, use: nat, v: View)
    requires it.Run? && use <= it.left && (it.left > use ==> n in v && v[n] == Rest(it, use))
    ensures ShowAll(Kept(n, it.left - use), Emphasis.StripAll(Emphasis.Spent(it, use)), v)
  {
    if it.left > use {
      ShowOne(n, Emphasis.Run(it.d, it.left - use), v);
    }
  }

  // The new node, and what is left of the runs, in a view.
  ghost predicate Extends(v: View, w: View, s: Emphasis.State, r: nat, opener: Node, closer: Node, emph: Node, use: nat)
    requires s.right != [] && s.right[0].Run? && r < |s.left| && s.left[r].Run? && use <= s.left[r].left && use <= s.right[0].left
  {
    && (forall n <- v :: n != opener && n != closer ==> n in w && w[n] == v[n])
    && (s.left[r].left > use ==> opener in w && w[opener] == Rest(s.left[r], use))
    && (s.right[0].left > use ==> closer in w && w[closer] == Rest(s.right[0], use))
    && emph in w && w[emph] == Emphasis.Wrap(use, s.right[0].d.ch, Emphasis.StripAll(s.left[r + 1..]))
  }

  // The view afterwards.
  ghost function NewView(v: View, s: Emphasis.State, r: nat, opener: Node, closer: Node, emph: Node, use: nat): View
    requires s.right != [] && s.right[0].Run? && r < |s.left| && s.left[r].Run? && use <= s.left[r].left && use <= s.right[0].left
  {
    var w := v[opener := Rest(s.left[r], use)][closer := Rest(s.right[0], use)]
              [emph := Emphasis.Wrap(use, s.right[0].d.ch, Emphasis.StripAll(s.left[r + 1..]))];
    w - (if s.left[r].left == use then {opener} else {}) - (if s.right[0].left == use then {closer} else {})
  }

  lemma NewViewExtends(v: View, s: Emphasis.State, r: nat, opener: Node, closer: Node, emph: Node, use: nat)
    requires s.right != [] && s.right[0].Run? && r < |s.left| && s.left[r].Run? && use <= s.left[r].left && use <= s.right[0].left
    requires opener != closer && emph !in v && emph != opener && emph != closer
    ensures Extends(v, NewView(v, s, r, opener, closer, emph, use), s, r, opener, closer, emph, use)
  {
  }

  // The items of a step: those before the opener, between the two and behind the closer.
  lemma StepParts(s: Emphasis.State, r: nat)
    requires r < |s.left| && s.right != []
    ensures var (items, j) := (s.left + s.right, |s.left|);
            items[0..r] == s.left[..r] && items[r + 1..j] == s.left[r + 1..] && items[j + 1..|items|] == s.right[1..]
  {
  }

  lemma ShowParts(c: seq<Node>, v: View, w: View, s: Emphasis.State, r: nat)
    requires r < |s.left| && s.right != [] && ShowAll(c, Emphasis.StripAll(s.left + s.right), v) && Distinct(c)
    requires forall n <- v :: n != c[r] && n != c[|s.left|] ==> n in w && w[n] == v[n]
    ensures var j := |s.left|;
            && ShowAll(c[..r], Emphasis.StripAll(s.left[..r]), w) && ShowAll(c[r + 1..j], Emphasis.StripAll(s.left[r + 1..]), w)
            && ShowAll(c[j + 1..], Emphasis.StripAll(s.right[1..]), w)
  {
    var (items, j) := (s.left + s.right, |s.left|);
    ShowSlice(c, items, v, 0, r, w);
    ShowSlice(c, items, v, r + 1, j, w);
    ShowSlice(c, items, v, j + 1, |c|, w);
    StepParts(s, r);
    assert c[0..r] == c[..r] && c[j + 1..|c|] == c[j + 1..];
  }

  // The siblings show what the step on values leaves, and the new node shows its children.
  lemma ShowInserted(c: seq<Node>, v: View, w: View, s: Emphasis.State, r: nat, opener: Node, closer: Node, emph: Node, use: nat)
    requires s.right != [] && s.right[0].Run? && r < |s.left| && s.left[r].Run? && use <= s.left[r].left && use <= s.right[0].left
    requires ShowAll(c, Emphasis.StripAll(s.left + s.right), v) && Distinct(c) && c[r] == opener && c[|s.left|] == closer
    requires use == Emphasis.Use(s.left[r].left, s.right[0].left) && Extends(v, w, s, r, opener, closer, emph, use)
    ensures var (j, t) := (|s.left|, Emphasis.Insert(s, r));
            && ShowAll(c[r + 1..j], Emphasis.StripAll(s.left[r + 1..]), w)
            && ShowAll(c[..r] + Kept(opener, s.left[r].left - use) + [emph] + Kept(closer, s.right[0].left - use) + c[j + 1..],
                       Emphasis.StripAll(t.left + t.right), w)
  {
    var (o, e, node) := (s.left[r], s.right[0], Emphasis.Node(w[emph]));
    ShowParts(c, v, w, s, r);
    ShowSpent(opener, o, use, w);
    ShowSpent(closer, e, use, w);
    ShowOne(emph, node, w);
    ShowFive(c[..r], Kept(opener, o.left - use), [emph], Kept(closer, e.left - use), c[|s.left| + 1..],
             s.left[..r], Emphasis.Spent(o, use), [node], Emphasis.Spent(e, use), s.right[1..], w);
  }

  // ---------- S_insert_emph ----------

  // The text nodes lose the characters that are used; no pointer changes.
  method TakeChars(opener: Node, closer: Node, use: nat, ghost nodes: set<Node>)
    requires Tree(nodes) && opener != closer && use <= |opener.literal| && use <= |closer.literal|
    modifies opener`literal, closer`literal
    ensures Tree(nodes)
    ensures opener.literal == old(opener.literal)[..|old(opener.literal)| - use]
    ensures closer.literal == old(closer.literal)[..|old(closer.literal)| - use]
  {
    opener.literal := opener.literal[..|opener.literal| - use];
    closer.literal := closer.literal[..|closer.literal| - use];
    forall n | n in nodes ensures n.Home(nodes) && n.Keeps(nodes) {
      assert old(n.Home(nodes)) && old(n.Keeps(nodes));
    }
  }

  lemma DropFrom(a: seq<Node>, x: Node, b: seq<Node>)
    requires Distinct(a + [x] + b)
    ensures Less(a + [x] + b, x) == a + b
  {
    var c := a + [x] + b;
    LessAt(c, |a|);
    assert c[|a|] == x && c[..|a|] == a && c[|a| + 1..] == b;
  }

  // An empty text node goes; only its parent's list changes.
  method FreeIfEmpty(x: Node, ghost p: Node, ghost a: seq<Node>, ghost b: seq<Node>, ghost nodes: set<Node>) returns (ghost rest: set<Node>)
    requires Tree(nodes) && p in nodes && x in nodes && x != p && x.children == [] && p.children == a + [x] + b
    modifies nodes`firstChild, nodes`lastChild, nodes`children, nodes`next, nodes`prev, x`parent
    ensures Tree(rest) && rest == nodes - if x.literal == "" then {x} else {}
    ensures p.children == a + Kept(x, |x.literal|) + b
    ensures forall n <- rest :: n != p ==> n.children == old(n.children)
  {
    rest := nodes;
    if x.literal == "" {
      assert p.Keeps(nodes);
      ListDistinct(p, p.children);
      DropFrom(a, x, b);
      assert (a + [x] + b)[|a|] == x;
      ChildOf(p, p.children, x);
      forall n | n in nodes && n != p ensures Less(n.children, x) == n.children {
        Childless(n, x, nodes);
      }
      FreeText(x, nodes);
      rest := nodes - {x};
      assert a + [] + b == a + b;
    }
  }

  /** The nodes of S_insert_emph: what stands between the two texts moves below a new node, which takes its place, and an empty
      text goes; all pointers agree afterwards. */
  method InsertNodes(opener: Node, closer: Node, ghost p: Node, ghost c: seq<Node>, ghost i: nat, ghost j: nat, ghost nodes: set<Node>)
    returns (emph: Node, ghost use: nat, ghost now: set<Node>)
    requires Tree(nodes) && p in nodes && p.children == c && i < j < |c| && c[i] == opener && c[j] == closer
    requires opener.kind == closer.kind == Text && opener.children == closer.children == [] && opener.literal != "" && closer.literal != ""
    requires opener in nodes && closer in nodes && opener.parent == closer.parent == p && Position(c, opener) == i && Position(c, closer) == j
    modifies nodes`next, nodes`prev, nodes`firstChild, nodes`lastChild, nodes`children, nodes`rank, nodes`parent
    modifies opener`literal, closer`literal
    ensures use == Emphasis.Use(|old(opener.literal)|, |old(closer.literal)|)
    ensures opener.literal == old(opener.literal)[..|old(opener.literal)| - use]
    ensures closer.literal == old(closer.literal)[..|old(closer.literal)| - use]
    ensures fresh(emph) && emph.kind == (if use == 2 then Kind.Strong else Kind.Emph) && emph.children == c[i + 1..j]
    ensures p.children == c[..i] + Kept(opener, |opener.literal|) + [emph] + Kept(closer, |closer.literal|) + c[j + 1..]
    ensures Tree(now)
    ensures now == nodes + {emph} - (if opener.literal == "" then {opener} else {}) - (if closer.literal == "" then {closer} else {})
    ensures forall n <- now :: n != p && n != emph ==> n.children == old(n.children)
  {
    assert p.Keeps(nodes);
    ListDistinct(p, c);
    var (openerChars, closerChars) := (|opener.literal|, |closer.literal|);
    var used := if closerChars >= 2 && openerChars >= 2 then 2 else 1;
    use := used;
    NotOwnParent(p, nodes);
    TakeChars(opener, closer, used, nodes);
    emph, now := Splice(opener, closer, used == 2, nodes);
    ghost var (o, front) := (Kept(opener, |opener.literal|), c[..i] + Kept(opener, |opener.literal|) + [emph]);
    Regroup(c, i, j, emph, o);
    now := FreeIfEmpty(opener, p, c[..i], [emph] + c[j..], now);
    now := FreeIfEmpty(closer, p, front, c[j + 1..], now);
  }

  lemma Regroup(c: seq<Node>, i: nat, j: nat, emph: Node, o: seq<Node>)
    requires i < j < |c|
    ensures c[..i + 1] + [emph] + c[j..] == c[..i] + [c[i]] + ([emph] + c[j..])
    ensures c[..i] + o + ([emph] + c[j..]) == (c[..i] + o + [emph]) + [c[j]] + c[j + 1..]
  {
  }

  lemma NotOwnParent(p: Node, nodes: set<Node>)
    requires Tree(nodes) && p in nodes
    ensures p.parent != p && p !in p.children
  {
    assert p.Home(nodes) && p.Keeps(nodes);
    if p in p.children {
      ChildOf(p, p.children, p);
    }
  }

  // No node but p has one of the two texts as a child.
  lemma OthersHold(p: Node, opener: Node, closer: Node, v: View, nodes: set<Node>)
    requires Tree(nodes) && opener in nodes && closer in nodes && opener.parent == closer.parent == p && p !in v && forall n <- v :: n in nodes
    ensures forall n <- v :: opener !in n.children && closer !in n.children
  {
    forall n | n in v ensures opener !in n.children && closer !in n.children {
      Childless(n, opener, nodes);
      Childless(n, closer, nodes);
    }
  }

  // A node whose children and text are as before shows what it did.
  lemma StillShows(n: Node, v: View, w: View)
    requires n in v && Shows(n, v) && n in w && w[n] == v[n]
    requires forall k <- n.children :: k in v ==> k in w && w[k] == v[k]
    ensures Shows(n, w)
  {
  }

  // What the nodes show when the new node stands.
  lemma ViewedAfter(v: View, w: View, s: Emphasis.State, r: nat, opener: Node, closer: Node, emph: Node, use: nat, now: set<Node>)
    requires s.right != [] && s.right[0].Run? && r < |s.left| && s.left[r].Run? && use <= s.left[r].left && use <= s.right[0].left
    requires w == NewView(v, s, r, opener, closer, emph, use) && opener != closer && emph !in v && emph != opener && emph != closer
    requires forall n <- v :: n != opener && n != closer ==> n in now && Shows(n, v) && opener !in n.children && closer !in n.children
    requires opener.kind == closer.kind == Text
    requires opener.literal == Emphasis.Rep(s.left[r].d.ch, s.left[r].left - use)
    requires closer.literal == Emphasis.Rep(s.right[0].d.ch, s.right[0].left - use)
    requires emph in now && (s.left[r].left > use ==> opener in now && opener.children == [])
    requires s.right[0].left > use ==> closer in now && closer.children == []
    requires emph.kind == (if use == 1 then Kind.Emph else Kind.Strong) && ShowAll(emph.children, Emphasis.StripAll(s.left[r + 1..]), w)
    ensures Viewed(w, now)
  {
    forall n | n in w ensures n in now && Shows(n, w) {
      if n != opener && n != closer && n != emph {
        StillShows(n, v, w);
      }
    }
  }

  // The values of a step and the siblings that show them.
  ghost predicate Values(c: seq<Node>, s: Emphasis.State, r: nat, v: View, opener: Node, closer: Node, use: nat) {
    && s.right != [] && s.right[0].Run? && r < |s.left| && s.left[r].Run? && use <= s.left[r].left && use <= s.right[0].left
    && use == Emphasis.Use(s.left[r].left, s.right[0].left)
    && ShowAll(c, Emphasis.StripAll(s.left + s.right), v) && Distinct(c) && c[r] == opener && c[|s.left|] == closer
  }

  lemma Outcome(p: Node, c: seq<Node>, s: Emphasis.State, r: nat, v: View, opener: Node, closer: Node, emph: Node, use: nat, now: set<Node>)
    returns (w: View)
    requires Values(c, s, r, v, opener, closer, use) && p !in v && p != emph && p != opener && p != closer
    requires opener != closer && emph !in v && emph != opener && emph != closer
    requires forall n <- v :: n != opener && n != closer ==> n in now && Shows(n, v) && opener !in n.children && closer !in n.children
    requires opener.kind == closer.kind == Text
    requires opener.literal == Emphasis.Rep(s.left[r].d.ch, s.left[r].left - use)
    requires closer.literal == Emphasis.Rep(s.right[0].d.ch, s.right[0].left - use)
    requires emph in now && (s.left[r].left > use ==> opener in now && opener.children == [])
    requires s.right[0].left > use ==> closer in now && closer.children == []
    requires emph.kind == (if use == 1 then Kind.Emph else Kind.Strong) && emph.children == c[r + 1..|s.left|]
    requires p.children == c[..r] + Kept(opener, s.left[r].left - use) + [emph] + Kept(closer, s.right[0].left - use) + c[|s.left| + 1..]
    ensures var t := Emphasis.Insert(s, r); ShowAll(p.children, Emphasis.StripAll(t.left + t.right), w)
    ensures Viewed(w, now) && p !in w
  {
    w := NewView(v, s, r, opener, closer, emph, use);
    NewViewExtends(v, s, r, opener, closer, emph, use);
    ShowInserted(c, v, w, s, r, opener, closer, emph, use);
    ViewedAfter(v, w, s, r, opener, closer, emph, use, now);
  }

  lemma ReadyFacts(p: Node, opener: Node, closer: Node, s: Emphasis.State, r: nat, v: View, nodes: set<Node>)
    requires Ready(p, opener, closer, s, r, v, nodes)
    ensures opener in nodes && closer in nodes && opener.parent == closer.parent == p && opener != closer && opener != p && closer != p
    ensures Position(p.children, opener) == r && Position(p.children, closer) == |s.left| && Distinct(p.children)
    ensures opener.children == closer.children == []
    ensures opener.literal == Emphasis.Rep(s.left[r].d.ch, s.left[r].left) && s.left[r].left > 0
    ensures closer.literal == Emphasis.Rep(s.right[0].d.ch, s.right[0].left) && s.right[0].left > 0
    ensures forall n <- v :: opener !in n.children && closer !in n.children
  {
    ReadyRuns(p, opener, closer, s, r, v, nodes);
    assert p.Keeps(nodes);
    ListDistinct(p, p.children);
    NotOwnParent(p, nodes);
    OthersHold(p, opener, closer, v, nodes);
  }

  /** S_insert_emph on the nodes and on values: the siblings show what the step on values leaves, and all pointers agree. */
  method InsertEmph(opener: Node, closer: Node, ghost p: Node, ghost s: Emphasis.State, ghost r: nat, ghost v: View, ghost nodes: set<Node>)
    returns (emph: Node, ghost w: View, ghost now: set<Node>)
    requires Ready(p, opener, closer, s, r, v, nodes)
    modifies nodes`next, nodes`prev, nodes`firstChild, nodes`lastChild, nodes`children, nodes`rank, nodes`parent
    modifies opener`literal, closer`literal
    ensures Tree(now) && fresh(emph) && now <= nodes + {emph} && p in now && p !in w
    ensures var t := Emphasis.Insert(s, r); ShowAll(p.children, Emphasis.StripAll(t.left + t.right), w)
    ensures var (c, j) := (old(p.children), |s.left|);
            && emph.children == c[r + 1..j]
            && p.children == c[..r] + Kept(opener, |opener.literal|) + [emph] + Kept(closer, |closer.literal|) + c[j + 1..]
    ensures Viewed(w, now)
  {
    ghost var c := p.children;
    ReadyFacts(p, opener, closer, s, r, v, nodes);
    ghost var use;
    emph, use, now := InsertNodes(opener, closer, p, c, r, |s.left|, nodes);
    forall n | n in v && n != opener && n != closer ensures n in now && Shows(n, v) && opener !in n.children && closer !in n.children {
      assert old(Shows(n, v)) && n.children == old(n.children);
    }
    assert Values(c, s, r, v, opener, closer, use);
    w := Outcome(p, c, s, r, v, opener, closer, emph, use, now);
  }
}
