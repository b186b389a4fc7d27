/** Joining adjacent text nodes during a walk: cmark_consolidate_text_nodes of iterator.c. */
module TextNodes {

  import opened Common
  import opened NodeTree
  import opened TreeWalk
  import opened TreeShape

  type Walked = seq<(Event, Node)>

  // The entering of a text node.
  predicate Text(e: (Event, Node)) {
    e.0 == Enter && e.1.kind == Kind.Text
  }

  // The text of a walk.
  function TextOf(s: Walked): string
    reads (set e <- s :: e.1)`literal
  {
    if s == [] then "" else (if Text(s[0]) then s[0].1.literal else "") + TextOf(s[1..])
  }

  // What a walk meets besides text.
  function Others(s: Walked): Walked {
    if s == [] then [] else (if Text(s[0]) then [] else [s[0]]) + Others(s[1..])
  }

  // Two text nodes in a row; as leaves are not left, they are siblings.
  predicate Pair(s: Walked, j: nat) {
    j + 1 < |s| && Text(s[j]) && Text(s[j + 1])
  }

  ghost predicate NoPairBefore(s: Walked, n: nat) {
    forall j {:trigger Pair(s, j)} :: 0 <= j < n ==> !Pair(s, j)
  }

  ghost predicate Alone(s: Walked, k: nat)
    requires k < |s|
  {
    forall j :: 0 <= j < |s| && j != k ==> s[j].1 != s[k].1
  }

  ghost predicate Within(s: Walked, nodes: set<Node>) {
    forall e <- s :: e.1 in nodes
  }

  // The iterator takes the events one after the other, and is then done.
  ghost predicate Taken(root: Node, s: Walked, nodes: set<Node>)
    requires Within(s, nodes)
    reads nodes`firstChild, nodes`next, nodes`parent
  {
    Follows(root, s, (Done, null))
  }

  function TextIn(s: Walked, nodes: set<Node>): string
    requires Within(s, nodes)
    reads nodes`literal
  {
    TextOf(s)
  }

  // What comes behind k.
  function Following(s: Walked, k: nat): (Event, Node?)
    requires k < |s|
  {
    if k + 1 < |s| then (s[k + 1].0, s[k + 1].1) else (Done, null)
  }

  // A text node is met once.
  ghost predicate TextOnce(s: Walked) {
    forall k {:trigger Alone(s, k)} :: 0 <= k < |s| && Text(s[k]) ==> Alone(s, k)
  }

  function Drop(s: Walked, i: nat): Walked
    requires i < |s|
  {
    s[..i] + s[i + 1..]
  }

  lemma {:induction false} TextOfSplit(a: Walked, b: Walked)
    ensures TextOf(a + b) == TextOf(a) + TextOf(b)
  {
    if a == [] {
      assert a + b == b;
    } else {
      assert (a + b)[1..] == a[1..] + b;
      TextOfSplit(a[1..], b);
    }
  }

  lemma {:induction false} OthersSplit(a: Walked, b: Walked)
    ensures Others(a + b) == Others(a) + Others(b)
  {
    if a == [] {
      assert a + b == b;
    } else {
      assert (a + b)[1..] == a[1..] + b;
      OthersSplit(a[1..], b);
    }
  }

  lemma OthersWithout(s: Walked, i: nat)
    requires i < |s| && Text(s[i])
    ensures Others(Drop(s, i)) == Others(s)
  {
    OthersSplit(s[..i], s[i + 1..]);
    OthersSplit(s[..i], s[i..]);
    assert s == s[..i] + s[i..] && s[i..][1..] == s[i + 1..];
  }

  lemma OnceWithout(s: Walked, i: nat)
    requires i < |s| && TextOnce(s)
    ensures TextOnce(Drop(s, i))
  {
    var r := Drop(s, i);
    forall k | 0 <= k < |r| && Text(r[k]) ensures Alone(r, k) {
      assert Alone(s, if k < i then k else k + 1);
    }
  }

  /** A text node behind its text sibling goes: the walk goes on as before, without it. */
  method Absorb(iter: Iter, cur: Node, tmp: Node, ghost s: Walked, ghost k: nat, ghost nodes: set<Node>)
    requires Tree(nodes) && TextOnce(s) && Within(s, nodes) && Taken(iter.root, s, nodes)
    requires k + 1 < |s| && s[k] == (Enter, cur) && s[k + 1] == (Enter, tmp) && Text(s[k]) && Text(s[k + 1])
    requires tmp in nodes && cur.next == tmp && tmp.prev == cur && iter.root.parent == null
    modifies Only(tmp.parent)`firstChild, Only(tmp.parent)`lastChild, Only(tmp.parent)`children
    modifies Only(tmp.prev)`next, Only(tmp.next)`prev, tmp`next, tmp`prev, tmp`parent
    ensures Tree(nodes) && cur.next == old(tmp.next)
    ensures Within(Drop(s, k + 1), nodes) && Taken(iter.root, Drop(s, k + 1), nodes)
  {
    ghost var (r, after) := (Drop(s, k + 1), (Done, null));
    assert Alone(s, k) && Alone(s, k + 1) && StepsTo(iter.root, s, k + 1, after);
    Siblings(cur, tmp, iter.root, nodes);
    Unlink(tmp, nodes);
    forall i | 0 <= i < |r| ensures StepsTo(iter.root, r, i, after) {
      if i != k {
        assert old(StepsTo(iter.root, s, if i < k then i else i + 1, after));
      }
    }
  }

  lemma Siblings(cur: Node, tmp: Node, root: Node, nodes: set<Node>)
    requires Tree(nodes) && tmp in nodes && tmp.prev == cur && root.parent == null
    ensures tmp.parent != null && cur.parent == tmp.parent && cur != root && tmp != root && cur != tmp
    ensures tmp.next != cur && tmp.next != tmp && tmp.parent != cur && tmp.parent != tmp
  {
    assert tmp.Home(nodes);
    Placed(tmp, nodes);
    ghost var p := tmp.parent;
    assert p.Home(nodes) && p.Keeps(nodes);
    var k := Position(p.children, tmp);
    Around(p, p.children, k);
    assert p.Slot(p.children, k);
  }

  // A node with a next sibling in a walk: the walk enters that sibling next.
  lemma NextInWalk(root: Node, s: Walked, k: nat, nodes: set<Node>)
    requires Tree(nodes) && Within(s, nodes) && Taken(root, s, nodes) && root in nodes && root.parent == null
    requires k < |s| && Text(s[k]) && s[k].1.next != null
    ensures k + 1 < |s| && s[k + 1] == (Enter, s[k].1.next) && s[k].1.next in nodes && s[k].1.next.prev == s[k].1
    ensures s[k].1.next.parent != null
  {
    var cur := s[k].1;
    assert StepsTo(root, s, k, (Done, null));
    assert cur in nodes && cur.Home(nodes) && root.Home(nodes);
    Placed(cur, nodes);
    var c := cur.parent.children;
    assert cur.parent.Keeps(nodes);
    assert cur.parent.Slot(c, Position(c, cur)) && cur.parent.Slot(c, Position(c, cur) + 1);
  }

  lemma TextWithout(s: Walked, k: nat)
    requires k + 1 < |s| && Text(s[k + 1])
    ensures Drop(s, k + 1)[..k + 1] == s[..k + 1]
    ensures TextOf(s[k + 1..]) == s[k + 1].1.literal + TextOf(Drop(s, k + 1)[k + 1..])
  {
    assert s[k + 1..][1..] == s[k + 2..] == Drop(s, k + 1)[k + 1..];
  }

  // What the walk without the next text node has in common with the walk.
  lemma DropFacts(s: Walked, k: nat, buf: string, nodes: set<Node>)
    requires k + 1 < |s| && Text(s[k + 1]) && TextOnce(s) && Within(s, nodes)
    ensures var r := Drop(s, k + 1);
            && Within(r, nodes) && TextOnce(r) && Others(r) == Others(s) && r[..k + 1] == s[..k + 1]
            && (buf + s[k + 1].1.literal) + TextOf(r[k + 1..]) == buf + TextOf(s[k + 1..])
  {
    TextWithout(s, k);
    OnceWithout(s, k + 1);
    OthersWithout(s, k + 1);
    Rejoin(buf, s[k + 1].1.literal, TextOf(Drop(s, k + 1)[k + 1..]));
  }

  // Where the iterator goes after the next text node.
  lemma NextFollowing(root: Node, s: Walked, k: nat, nodes: set<Node>)
    requires Within(s, nodes) && Taken(root, s, nodes) && k + 1 < |s| && s[k + 1].0 == Enter
    ensures Succ(root, Enter, s[k + 1].1) == Following(Drop(s, k + 1), k)
  {
    assert StepsTo(root, s, k + 1, (Done, null));
  }

  // One turn of the inner loop.
  method TakeNext(iter: Iter, cur: Node, tmp: Node, buf: string, ghost s: Walked, ghost k: nat, ghost nodes: set<Node>)
    returns (more: string, next: Node?)
    requires Tree(nodes) && TextOnce(s) && Within(s, nodes) && Taken(iter.root, s, nodes)
    requires iter.root in nodes && iter.root.parent == null && iter.Valid()
    requires k < |s| && s[k] == (Enter, cur) && Text(s[k]) && cur.next == tmp && tmp.kind == Kind.Text
    requires (iter.nextEvent, iter.nextNode) == Following(s, k)
    modifies iter, Only(tmp.parent)`firstChild, Only(tmp.parent)`lastChild, Only(tmp.parent)`children
    modifies Only(tmp.prev)`next, Only(tmp.next)`prev, tmp`next, tmp`prev, tmp`parent
    ensures Tree(nodes) && iter.Valid() && next == cur.next
    ensures k + 1 < |s| && Text(s[k + 1])
    ensures var r := Drop(s, k + 1);
            && Within(r, nodes) && Taken(iter.root, r, nodes) && TextOnce(r) && Others(r) == Others(s)
            && (iter.nextEvent, iter.nextNode) == Following(r, k)
    ensures Drop(s, k + 1)[..k + 1] == s[..k + 1]
    ensures more + TextOf(Drop(s, k + 1)[k + 1..]) == buf + TextOf(s[k + 1..])
  {
    NextInWalk(iter.root, s, k, nodes);
    DropFacts(s, k, buf, nodes);
    NextFollowing(iter.root, s, k, nodes);
    var _ := iter.Next();
    more := buf + tmp.literal;
    next := tmp.next;
    Absorb(iter, cur, tmp, s, k, nodes);
  }

  // The text of the others stays.
  method SetLiteral(cur: Node, buf: string, ghost a: Walked, ghost b: Walked)
    requires (forall e <- a :: e.1 != cur) && (forall e <- b :: e.1 != cur)
    modifies cur`literal
    ensures cur.literal == buf && TextOf(a) == old(TextOf(a)) && TextOf(b) == old(TextOf(b))
  {
    cur.literal := buf;
  }

  // The inner loop: the text siblings behind cur are read and freed.
  method GatherRun(iter: Iter, cur: Node, ghost s: Walked, ghost k: nat, ghost nodes: set<Node>)
    returns (buf: string, ghost r: Walked)
    requires Tree(nodes) && TextOnce(s) && Within(s, nodes) && Taken(iter.root, s, nodes)
    requires iter.root in nodes && iter.root.parent == null && iter.Valid()
    requires k < |s| && s[k] == (Enter, cur) && Text(s[k])
    requires (iter.nextEvent, iter.nextNode) == Following(s, k)
    modifies iter, nodes`firstChild, nodes`lastChild, nodes`children, nodes`next, nodes`prev, nodes`parent
    ensures Tree(nodes) && iter.Valid() && iter.root.parent == null
    ensures Within(r, nodes) && Taken(iter.root, r, nodes) && TextOnce(r) && Others(r) == Others(s)
    ensures k < |r| <= |s| && r[..k + 1] == s[..k + 1] && (iter.nextEvent, iter.nextNode) == Following(r, k)
    ensures cur.next != null ==> cur.next.kind != Kind.Text
    ensures buf + TextOf(r[k + 1..]) == cur.literal + TextOf(s[k + 1..])
  {
    buf := cur.literal;
    var tmp := cur.next;
    r := s;
    ghost var (head, all) := (s[..k + 1], cur.literal + TextOf(s[k + 1..]));
    while tmp != null && tmp.kind == Kind.Text
      invariant Tree(nodes) && iter.Valid() && iter.root.parent == null && tmp == cur.next
      invariant Within(r, nodes) && Taken(iter.root, r, nodes) && TextOnce(r) && Others(r) == Others(s)
      invariant k < |r| <= |s| && r[..k + 1] == head && (iter.nextEvent, iter.nextNode) == Following(r, k)
      invariant buf + TextOf(r[k + 1..]) == all
      decreases |r|
    {
      NextInWalk(iter.root, r, k, nodes);
      Neighbours(tmp, nodes);
      assert r[k] == head[k] == (Enter, cur);
      buf, tmp := TakeNext(iter, cur, tmp, buf, r, k, nodes);
      r := Drop(r, k + 1);
    }
  }

  /** A text node takes in all the text siblings behind it. */
  method MergeRun(iter: Iter, cur: Node, ghost s: Walked, ghost k: nat, ghost nodes: set<Node>) returns (ghost r: Walked)
    requires Tree(nodes) && TextOnce(s) && Within(s, nodes) && Taken(iter.root, s, nodes)
    requires iter.root in nodes && iter.root.parent == null && iter.Valid()
    requires k < |s| && s[k] == (Enter, cur) && Text(s[k])
    requires (iter.nextEvent, iter.nextNode) == Following(s, k)
    modifies iter, nodes`firstChild, nodes`lastChild, nodes`children, nodes`next, nodes`prev, nodes`parent, cur`literal
    ensures Tree(nodes) && iter.Valid() && iter.root.parent == null
    ensures Within(r, nodes) && Taken(iter.root, r, nodes) && TextOnce(r) && Others(r) == Others(s)
    ensures k < |r| <= |s| && r[..k + 1] == s[..k + 1] && (iter.nextEvent, iter.nextNode) == Following(r, k)
    ensures cur.next != null ==> cur.next.kind != Kind.Text
    ensures TextIn(r, nodes) == old(TextIn(s, nodes))
  {
    Halves(s, k);
    ghost var (front, back) := (TextOf(s[..k]), TextOf(s[k + 1..]));
    Rejoin(front, cur.literal, back);
    var buf;
    buf, r := GatherRun(iter, cur, s, k, nodes);
    assert r[..k] == r[..k + 1][..k] == s[..k];
    assert TextOf(r[..k]) == front && TextOf(s[k + 1..]) == back;
    Rejoin(front, buf, TextOf(r[k + 1..]));
    assert Alone(r, k);
    SetLiteral(cur, buf, r[..k], r[k + 1..]);
    Halves(r, k);
  }

  lemma Halves(s: Walked, k: nat)
    requires k < |s| && Text(s[k])
    ensures TextOf(s) == TextOf(s[..k]) + s[k].1.literal + TextOf(s[k + 1..])
  {
    TextOfSplit(s[..k], s[k..]);
    assert s == s[..k] + s[k..] && s[k..][1..] == s[k + 1..];
  }

  // No text node of the walk is followed by a text sibling.
  ghost predicate AllJoined(s: Walked, nodes: set<Node>)
    requires Within(s, nodes)
    reads nodes`next
  {
    forall e <- s :: Text(e) && e.1.next != null ==> e.1.next.kind != Kind.Text
  }

  // Text siblings are entered one after the other.
  lemma NoPairIsJoined(root: Node, s: Walked, nodes: set<Node>)
    requires Tree(nodes) && Within(s, nodes) && Taken(root, s, nodes) && root in nodes && root.parent == null
    requires NoPairBefore(s, |s|)
    ensures AllJoined(s, nodes)
  {
    forall e | e in s && Text(e) && e.1.next != null ensures e.1.next.kind != Kind.Text {
      var k :| 0 <= k < |s| && s[k] == e;
      NextInWalk(root, s, k, nodes);
      assert !Pair(s, k);
    }
  }

  // What a node's turn leaves: it does not start a pair.
  method JoinOne(iter: Iter, cur: Node, ev: Event, ghost s: Walked, ghost k: nat, ghost nodes: set<Node>) returns (ghost r: Walked)
    requires Tree(nodes) && TextOnce(s) && Within(s, nodes) && Taken(iter.root, s, nodes)
    requires iter.root in nodes && iter.root.parent == null && iter.Valid()
    requires k < |s| && s[k] == (ev, cur) && (iter.nextEvent, iter.nextNode) == Following(s, k)
    modifies iter, nodes`firstChild, nodes`lastChild, nodes`children, nodes`next, nodes`prev, nodes`parent, cur`literal
    ensures Tree(nodes) && iter.Valid() && iter.root.parent == null
    ensures Within(r, nodes) && Taken(iter.root, r, nodes) && TextOnce(r) && Others(r) == Others(s)
    ensures k < |r| <= |s| && r[..k + 1] == s[..k + 1] && (iter.nextEvent, iter.nextNode) == Following(r, k)
    ensures !Pair(r, k)
    ensures TextIn(r, nodes) == old(TextIn(s, nodes))
  {
    r := s;
    assert StepsTo(iter.root, s, k, (Done, null));
    if ev == Enter && cur.kind == Kind.Text && cur.next != null && cur.next.kind == Kind.Text {
      r := MergeRun(iter, cur, s, k, nodes);
      assert r[k] == r[..k + 1][k] == s[k];
      assert StepsTo(iter.root, r, k, (Done, null));
    }
  }

  /** cmark_consolidate_text_nodes: afterwards no two text siblings are adjacent, the text of the walk is what it was,
      and it meets the same other nodes in the same order. */
  method Consolidate(iter: Iter, ghost s: Walked, ghost nodes: set<Node>) returns (ghost r: Walked)
    requires Tree(nodes) && TextOnce(s) && Within(s, nodes) && Taken(iter.root, s, nodes)
    requires iter.root in nodes && iter.root.parent == null && iter.Valid()
    requires s != [] && s[0] == (Enter, iter.root) && (iter.nextEvent, iter.nextNode) == (Enter, iter.root)
    modifies iter, nodes`firstChild, nodes`lastChild, nodes`children, nodes`next, nodes`prev, nodes`parent, nodes`literal
    ensures Tree(nodes) && iter.root.parent == null
    ensures Within(r, nodes) && Taken(iter.root, r, nodes) && r != [] && r[0] == (Enter, iter.root)
    ensures AllJoined(r, nodes)
    ensures Others(r) == Others(s) && TextIn(r, nodes) == old(TextIn(s, nodes))
  {
    r := s;
    ghost var k: nat := 0;
    ghost var text := TextIn(s, nodes);
    assert StepsTo(iter.root, r, 0, (Done, null));
    var ev := iter.Next();
    while ev != Done
      invariant Tree(nodes) && iter.Valid() && iter.root.parent == null
      invariant Within(r, nodes) && Taken(iter.root, r, nodes) && TextOnce(r) && Others(r) == Others(s)
      invariant r != [] && r[0] == (Enter, iter.root) && TextIn(r, nodes) == text
      invariant k <= |r| && NoPairBefore(r, k)
      invariant if ev == Done then k == |r| else k < |r| && r[k] == (ev, iter.node) && (iter.nextEvent, iter.nextNode) == Following(r, k)
      decreases |r| - k
    {
      ghost var was := r;
      r := JoinOne(iter, iter.node, ev, was, k, nodes);
      StillNoPair(was, r, k);
      k := k + 1;
      if k < |r| {
        assert StepsTo(iter.root, r, k, (Done, null));
      }
      ev := iter.Next();
    }
    NoPairIsJoined(iter.root, r, nodes);
  }

  lemma StillNoPair(s: Walked, r: Walked, k: nat)
    requires k < |s| && k < |r| && r[..k + 1] == s[..k + 1] && NoPairBefore(s, k) && !Pair(r, k)
    ensures NoPairBefore(r, k + 1) && r[0] == s[0]
  {
    assert r[0] == r[..k + 1][0] == s[0];
    forall j | 0 <= j < k + 1 ensures !Pair(r, j) {
      if j < k {
        assert !Pair(s, j);
        assert r[j] == r[..k + 1][j] == s[j] && r[j + 1] == r[..k + 1][j + 1] == s[j + 1];
      }
    }
  }

  // ---------- the walk of a tree ----------

  lemma {:induction false} TourStays(t: Branch)
    ensures forall e <- Tour(t) :: e.1 in Preorder(t)
  {
    TourAllStays(t.kids);
  }

  lemma {:induction false} TourAllStays(ts: seq<Branch>)
    ensures forall e <- TourAll(ts) :: e.1 in PreorderAll(ts)
  {
    if ts != [] {
      TourStays(ts[0]);
      TourAllStays(ts[1..]);
    }
  }

  lemma OnceJoin(a: Walked, b: Walked)
    requires TextOnce(a) && TextOnce(b) && forall i, j :: 0 <= i < |a| && 0 <= j < |b| ==> a[i].1 != b[j].1
    ensures TextOnce(a + b)
  {
    forall k | 0 <= k < |a + b| && Text((a + b)[k]) ensures Alone(a + b, k) {
      if k < |a| {
        assert Alone(a, k);
      } else {
        assert Alone(b, k - |a|);
      }
    }
  }

  lemma OnceWrap(n: Node, s: Walked)
    requires TextOnce(s) && !Leaf(n.kind) && forall e <- s :: e.1 != n
    ensures TextOnce([(Enter, n)] + s + [(Exit, n)])
  {
    var w := [(Enter, n)] + s + [(Exit, n)];
    forall k | 0 <= k < |w| && Text(w[k]) ensures Alone(w, k) {
      assert 0 < k <= |s| && w[k] == s[k - 1];
      assert Alone(s, k - 1);
      forall j | 0 <= j < |w| && j != k ensures w[j].1 != w[k].1 {
        assert 0 < j <= |s| ==> w[j] == s[j - 1];
      }
    }
  }

  /** A tree's walk meets every text node once. */
  lemma {:induction false} TourOnce(t: Branch)
    requires NoDup(Preorder(t))
    ensures TextOnce(Tour(t))
    decreases t
  {
    NoDupSplit([t.node], PreorderAll(t.kids));
    if !Leaf(t.node.kind) {
      TourAllOnce(t.kids);
      TourAllStays(t.kids);
      OnceWrap(t.node, TourAll(t.kids));
    }
  }

  lemma {:induction false} TourAllOnce(ts: seq<Branch>)
    requires NoDup(PreorderAll(ts))
    ensures TextOnce(TourAll(ts))
    decreases ts
  {
    if ts != [] {
      var (a, b) := (Preorder(ts[0]), PreorderAll(ts[1..]));
      NoDupSplit(a, b);
      TourOnce(ts[0]);
      TourAllOnce(ts[1..]);
      TourStays(ts[0]);
      TourAllStays(ts[1..]);
      var (u, v) := (Tour(ts[0]), TourAll(ts[1..]));
      forall i, j | 0 <= i < |u| && 0 <= j < |v| ensures u[i].1 != v[j].1 {
        assert u[i].1 in a && v[j].1 in b;
      }
      OnceJoin(u, v);
    }
  }

  lemma TourWithin(t: Branch, nodes: set<Node>)
    requires forall n <- Preorder(t) :: n in nodes
    ensures Within(Tour(t), nodes)
  {
    TourStays(t);
  }

  // ---------- whole trees ----------

  // The iterator has only one walk.
  lemma {:induction false} SameUpTo(root: Node, a: Walked, b: Walked, k: nat)
    requires Follows(root, a, (Done, null)) && Follows(root, b, (Done, null)) && a != [] && b != [] && a[0] == b[0]
    requires k < |a|
    ensures k < |b| && a[k] == b[k]
  {
    if k > 0 {
      SameUpTo(root, a, b, k - 1);
      assert StepsTo(root, a, k - 1, (Done, null)) && StepsTo(root, b, k - 1, (Done, null));
    }
  }

  lemma SameWalk(root: Node, a: Walked, b: Walked)
    requires Follows(root, a, (Done, null)) && Follows(root, b, (Done, null)) && a != [] && b != [] && a[0] == b[0]
    ensures a == b
  {
    SameUpTo(root, a, b, |a| - 1);
    SameUpTo(root, b, a, |b| - 1);
    forall k | 0 <= k < |a| ensures a[k] == b[k] {
      SameUpTo(root, a, b, k);
    }
  }

  // Only nodes that may hold children have any.
  lemma {:induction false} TourEnters(n: Node, nodes: set<Node>, top: nat, x: Node)
    requires Tree(nodes) && n in nodes && x in nodes && forall y <- nodes :: y.rank < top
    requires x in Preorder(Grow(n, nodes, top))
    ensures (Enter, x) in Tour(Grow(n, nodes, top))
    decreases top - n.rank, |n.children| + 1
  {
    var t := Grow(n, nodes, top);
    if x != n {
      assert n.children != [];
      ChildBelow(n, 0, nodes);
      assert n.children[0].Home(nodes) && !Leaf(n.kind);
      TourAllEnters(n, 0, nodes, top, x);
    }
  }

  lemma {:induction false} TourAllEnters(p: Node, i: nat, nodes: set<Node>, top: nat, x: Node)
    requires Tree(nodes) && p in nodes && x in nodes && i <= |p.children| && forall y <- nodes :: y.rank < top
    requires x in PreorderAll(GrowAll(p, i, nodes, top))
    ensures (Enter, x) in TourAll(GrowAll(p, i, nodes, top))
    decreases top - p.rank, |p.children| - i
  {
    if i < |p.children| {
      ChildBelow(p, i, nodes);
      if x in Preorder(Grow(p.children[i], nodes, top)) {
        TourEnters(p.children[i], nodes, top, x);
      } else {
        TourAllEnters(p, i + 1, nodes, top, x);
      }
    }
  }

  // The walk of the tree below a node, as the iterator takes it.
  ghost function WalkOf(root: Node, nodes: set<Node>, top: nat): (s: Walked)
    requires Tree(nodes) && root in nodes && forall y <- nodes :: y.rank < top
    reads nodes
    ensures s != [] && s[0] == (Enter, root)
  {
    Tour(Grow(root, nodes, top))
  }

  lemma WalkOfTaken(root: Node, nodes: set<Node>, top: nat)
    requires Tree(nodes) && root in nodes && forall y <- nodes :: y.rank < top
    ensures var s := WalkOf(root, nodes, top);
            Within(s, nodes) && Taken(root, s, nodes) && TextOnce(s)
  {
    var t := Grow(root, nodes, top);
    GrownMatches(root, nodes, top);
    GrownNoDup(root, nodes, top);
    GrownInTree(root, 0, nodes, top);
    NoDupSplit([root], PreorderAll(t.kids));
    TourWithin(t, nodes);
    TourOnce(t);
    WalkIsTour(t);
  }

  // A walk whose text is joined is that of a tree whose text is joined.
  lemma JoinedBelow(root: Node, nodes: set<Node>, top: nat, x: Node)
    requires Tree(nodes) && root in nodes && x in nodes && forall y <- nodes :: y.rank < top
    requires Within(WalkOf(root, nodes, top), nodes) && AllJoined(WalkOf(root, nodes, top), nodes)
    requires root in Lineage(x, nodes) && x.kind == Kind.Text && x.next != null
    ensures x.next.kind != Kind.Text
  {
    GrownHolds(root, nodes, top, x);
    TourEnters(root, nodes, top, x);
    assert Text((Enter, x));
  }

  /** On a whole tree: no text node below the root has a text sibling behind it, the text is what it was, and the tree has the
      same other nodes in the same order. */
  method ConsolidateTree(root: Node, ghost nodes: set<Node>, ghost top: nat)
    requires Tree(nodes) && root in nodes && root.parent == null && forall y <- nodes :: y.rank < top
    modifies nodes`firstChild, nodes`lastChild, nodes`children, nodes`next, nodes`prev, nodes`parent, nodes`literal
    ensures Tree(nodes)
    ensures forall x <- nodes :: root in Lineage(x, nodes) && x.kind == Kind.Text && x.next != null ==> x.next.kind != Kind.Text
    ensures Others(WalkOf(root, nodes, top)) == old(Others(WalkOf(root, nodes, top)))
    ensures TextOf(WalkOf(root, nodes, top)) == old(TextOf(WalkOf(root, nodes, top)))
  {
    WalkOfTaken(root, nodes, top);
    ghost var before := WalkOf(root, nodes, top);
    var iter := new Iter(root);
    ghost var after := Consolidate(iter, before, nodes);
    WalkOfTaken(root, nodes, top);
    SameWalk(root, after, WalkOf(root, nodes, top));
    forall x | x in nodes && root in Lineage(x, nodes) && x.kind == Kind.Text && x.next != null ensures x.next.kind != Kind.Text {
      JoinedBelow(root, nodes, top, x);
    }
  }
}
