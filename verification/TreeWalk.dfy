/** Walking and freeing the tree without a stack: iterator.c and S_free_nodes of node.c. */
module TreeWalk {

  import opened NodeTree

  // The tree that hangs on a node, as a value.
  datatype Branch = Branch(node: Node, kids: seq<Branch>)

  // Every node, parents first.
  function Preorder(t: Branch): (s: seq<Node>)
    ensures s != [] && s[0] == t.node
  {
    [t.node] + PreorderAll(t.kids)
  }

  function PreorderAll(ts: seq<Branch>): seq<Node> {
    if ts == [] then [] else Preorder(ts[0]) + PreorderAll(ts[1..])
  }

  function NodeAt(ts: seq<Branch>, i: int): Node? {
    if 0 <= i < |ts| then ts[i].node else null
  }

  // The sibling pointer of the node at i.
  ghost predicate Leads(ts: seq<Branch>, i: nat, after: Node?)
    requires i < |ts|
    reads {ts[i].node}`next
  {
    ts[i].node.next == if i + 1 < |ts| then ts[i + 1].node else after
  }

  // Each node leads to the next, the last to after.
  ghost predicate Chained(ts: seq<Branch>, after: Node?)
    reads (set t <- ts :: t.node)`next
  {
    forall i {:trigger Leads(ts, i, after)} :: 0 <= i < |ts| ==> Leads(ts, i, after)
  }

  lemma {:induction false} Listed(ts: seq<Branch>)
    ensures forall t <- ts :: forall n <- Preorder(t) :: n in PreorderAll(ts)
  {
    if ts != [] {
      Listed(ts[1..]);
      forall t | t in ts ensures forall n <- Preorder(t) :: n in PreorderAll(ts) {
        assert ts == [ts[0]] + ts[1..];
      }
    }
  }

  /** The pointers below a node are those of its branch. */
  ghost predicate Matches(t: Branch)
    reads (set n <- Preorder(t))`firstChild, (set n <- Preorder(t))`lastChild
    reads (set n <- PreorderAll(t.kids))`next, (set n <- PreorderAll(t.kids))`parent
  {
    Listed(t.kids);
    && t.node.firstChild == NodeAt(t.kids, 0) && t.node.lastChild == NodeAt(t.kids, |t.kids| - 1)
    && Chained(t.kids, null)
    && (forall k <- t.kids :: k.node.parent == t.node && Matches(k))
  }

  // ---------- freeing ----------

  predicate NoDup(s: seq<Node>) {
    s == [] || (s[0] !in s[1..] && NoDup(s[1..]))
  }

  lemma {:induction false} NoDupSplit(a: seq<Node>, b: seq<Node>)
    ensures NoDup(a + b) <==> NoDup(a) && NoDup(b) && forall x <- a :: x !in b
  {
    if a == [] {
      assert a + b == b;
    } else {
      assert (a + b)[1..] == a[1..] + b && a == [a[0]] + a[1..];
      NoDupSplit(a[1..], b);
    }
  }

  lemma {:induction false} PreorderAllSplit(a: seq<Branch>, b: seq<Branch>)
    ensures PreorderAll(a + b) == PreorderAll(a) + PreorderAll(b)
  {
    if a == [] {
      assert a + b == b;
    } else {
      assert (a + b)[1..] == a[1..] + b;
      PreorderAllSplit(a[1..], b);
    }
  }

  // No root of the list lies below a root, and none stands in it twice.
  lemma {:induction false} RootsApart(ts: seq<Branch>, i: nat, j: nat)
    requires NoDup(PreorderAll(ts)) && i < |ts| && j < |ts|
    ensures ts[i].node !in PreorderAll(ts[j].kids)
    ensures i != j ==> ts[i].node != ts[j].node
    decreases |ts|
  {
    NoDupSplit(Preorder(ts[0]), PreorderAll(ts[1..]));
    NoDupSplit([ts[0].node], PreorderAll(ts[0].kids));
    Listed(ts[1..]);
    if i > 0 && j > 0 {
      RootsApart(ts[1..], i - 1, j - 1);
    } else if i > 0 {
      assert ts[i] in ts[1..] && ts[i].node in Preorder(ts[i]);
    } else if j > 0 {
      assert ts[j] in ts[1..] && ts[0].node in Preorder(ts[0]);
      forall n | n in PreorderAll(ts[j].kids) ensures n in Preorder(ts[j]) {
      }
    }
  }

  // Taking the first root out of the list and its children in.
  function Spliced(todo: seq<Branch>): seq<Branch>
    requires todo != []
  {
    todo[0].kids + todo[1..]
  }

  lemma SplicedOrder(todo: seq<Branch>)
    requires todo != [] && NoDup(PreorderAll(todo))
    ensures PreorderAll(todo) == [todo[0].node] + PreorderAll(Spliced(todo))
    ensures NoDup(PreorderAll(Spliced(todo))) && todo[0].node !in PreorderAll(Spliced(todo))
    ensures forall u <- Spliced(todo) :: todo[0].node !in PreorderAll(u.kids) && todo[0].node != u.node
    ensures forall u <- Spliced(todo) :: u.node in PreorderAll(todo)
  {
    PreorderAllSplit(todo[0].kids, todo[1..]);
    var rest := PreorderAll(Spliced(todo));
    assert PreorderAll(todo) == [todo[0].node] + rest;
    NoDupSplit([todo[0].node], rest);
    forall u | u in Spliced(todo) ensures todo[0].node !in PreorderAll(u.kids) && todo[0].node != u.node && u.node in rest {
      NotInList(todo[0].node, Spliced(todo), u);
    }
  }

  lemma NotInList(e: Node, ts: seq<Branch>, u: Branch)
    requires u in ts && e !in PreorderAll(ts)
    ensures e !in PreorderAll(u.kids) && e != u.node && u.node in PreorderAll(ts)
  {
    Listed(ts);
    assert u.node in Preorder(u);
    assert forall n <- PreorderAll(u.kids) :: n in Preorder(u);
  }

  lemma LastKidApart(todo: seq<Branch>)
    requires todo != [] && todo[0].kids != [] && NoDup(PreorderAll(Spliced(todo)))
    ensures var m := |todo[0].kids| - 1; var last := todo[0].kids[m].node;
            && (forall u <- Spliced(todo) :: last !in PreorderAll(u.kids))
            && (forall j :: 0 <= j < |Spliced(todo)| && j != m ==> Spliced(todo)[j].node != last)
  {
    var (ts, m) := (Spliced(todo), |todo[0].kids| - 1);
    forall j | 0 <= j < |ts| ensures ts[m].node !in PreorderAll(ts[j].kids) && (j != m ==> ts[j].node != ts[m].node) {
      RootsApart(ts, m, j);
    }
  }

  ghost predicate AllMatch(ts: seq<Branch>)
    reads (set t <- ts, n <- Preorder(t) :: n)`firstChild, (set t <- ts, n <- Preorder(t) :: n)`lastChild
    reads (set t <- ts, n <- PreorderAll(t.kids) :: n)`next, (set t <- ts, n <- PreorderAll(t.kids) :: n)`parent
  {
    forall t {:trigger Matches(t)} :: t in ts ==> Matches(t)
  }

  lemma SplicedMatch(todo: seq<Branch>)
    requires todo != [] && AllMatch(todo)
    ensures AllMatch(Spliced(todo)) && Matches(todo[0])
  {
    assert Matches(todo[0]);
    forall u | u in Spliced(todo) ensures Matches(u) {
      if u !in todo[0].kids {
        assert u in todo;
      }
    }
  }

  // Before the splice, all but the last child already lead to the next of the new list.
  lemma SplicedChain(todo: seq<Branch>)
    requires todo != [] && Chained(todo, null) && Matches(todo[0])
    ensures var ts := Spliced(todo); var m := |todo[0].kids|;
            && todo[0].node.next == NodeAt(ts, m)
            && forall i {:trigger Leads(ts, i, null)} :: 0 <= i < |ts| && i != m - 1 ==> Leads(ts, i, null)
  {
    var (ts, kids) := (Spliced(todo), todo[0].kids);
    assert Leads(todo, 0, null);
    forall i | 0 <= i < |ts| && i != |kids| - 1 ensures Leads(ts, i, null) {
      if i < |kids| {
        assert Leads(kids, i, null);
      } else {
        assert Leads(todo, i - |kids| + 1, null);
      }
    }
  }

  lemma MoveHead(a: seq<Node>, e: Node, b: seq<Node>)
    ensures a + ([e] + b) == a + [e] + b
  {
  }

  // The two assignments; neither node lies below a root of the list.
  method Relink(e: Node, last: Node, ghost ts: seq<Branch>)
    requires AllMatch(ts) && e.lastChild == last && e != last
    requires forall u <- ts :: e !in PreorderAll(u.kids) && last !in PreorderAll(u.kids)
    modifies e`next, last`next
    ensures AllMatch(ts) && last.next == old(e.next) && e.next == e.firstChild
  {
    e.lastChild.next := e.next;
    e.next := e.firstChild;
    forall u | u in ts ensures Matches(u) {
      assert old(Matches(u));
    }
  }

  /** S_free_nodes: children are spliced in behind their parent, and every node is freed exactly once, parents first. */
  method FreeNodes(root: Node, ghost t: Branch) returns (freed: seq<Node>)
    requires t.node == root && Matches(t) && root.next == null && NoDup(Preorder(t))
    modifies (set n <- Preorder(t))`next
    ensures freed == Preorder(t)
  {
    freed := [];
    var e: Node? := root;
    ghost var todo := [t];
    assert PreorderAll(todo) == Preorder(t);
    while e != null
      invariant e == NodeAt(todo, 0) && Chained(todo, null)
      invariant AllMatch(todo)
      invariant freed + PreorderAll(todo) == Preorder(t)
      invariant NoDup(PreorderAll(todo))
      decreases |PreorderAll(todo)|
    {
      SplicedOrder(todo);
      MoveHead(freed, e, PreorderAll(Spliced(todo)));
      freed := freed + [e];
      e := FreeOne(todo, e);
      todo := Spliced(todo);
    }
  }

  // One turn: the children go before what follows.
  method FreeOne(ghost todo: seq<Branch>, e: Node) returns (next: Node?)
    requires todo != [] && e == todo[0].node && Chained(todo, null) && NoDup(PreorderAll(todo))
    requires AllMatch(todo)
    modifies (set n <- PreorderAll(todo))`next
    ensures next == NodeAt(Spliced(todo), 0)
    ensures Chained(Spliced(todo), null)
    ensures AllMatch(Spliced(todo))
  {
    ghost var (kids, ts) := (todo[0].kids, Spliced(todo));
    SplicedOrder(todo);
    SplicedMatch(todo);
    SplicedChain(todo);
    if e.lastChild != null {
      LastKidApart(todo);
      assert kids[|kids| - 1] in ts;
      Relink(e, e.lastChild, ts);
    }
    forall i | 0 <= i < |ts| ensures Leads(ts, i, null) {
      if i != |kids| - 1 {
        assert old(Leads(ts, i, null));
      }
    }
    next := e.next;
  }

  // ---------- the iterator ----------

  datatype Event = Enter | Exit | Done

  // S_is_leaf
  predicate Leaf(kind: Kind) {
    kind.HtmlBlock? || kind.ThematicBreak? || kind.CodeBlock? || kind.Text? || kind.SoftBreak? || kind.LineBreak?
    || kind.Code? || kind.HtmlInline?
  }

  /** The walk by recursion: leaves are only entered, every other node is entered and left. */
  function Tour(t: Branch): (s: seq<(Event, Node)>)
    ensures s != [] && s[0] == (Enter, t.node)
  {
    if Leaf(t.node.kind) then [(Enter, t.node)] else [(Enter, t.node)] + TourAll(t.kids) + [(Exit, t.node)]
  }

  function TourAll(ts: seq<Branch>): seq<(Event, Node)>
  {
    if ts == [] then [] else Tour(ts[0]) + TourAll(ts[1..])
  }

  // The step of cmark_iter_next from one event to the next.
  function Succ(root: Node, event: Event, n: Node): (Event, Node?)
    reads {n}`firstChild, {n}`next, {n}`parent
  {
    if event == Enter && !Leaf(n.kind) then (if n.firstChild == null then (Exit, n) else (Enter, n.firstChild))
    else if n == root then (Done, null)
    else if n.next != null then (Enter, n.next)
    else if n.parent != null then (Exit, n.parent)
    else (Done, null)
  }

  class Iter {
    const root: Node
    var event: Event
    var node: Node?
    var nextEvent: Event
    var nextNode: Node?

    ghost predicate Valid()
      reads this
    {
      nextEvent == Done <==> nextNode == null
    }

    constructor (root: Node)
      ensures Valid() && this.root == root && nextEvent == Enter && nextNode == root
    {
      this.root := root;
      event, node, nextEvent, nextNode := Done, null, Enter, root;
    }

    // cmark_iter_next
    method Next() returns (ev: Event)
      requires Valid()
      modifies this
      ensures Valid() && ev == event == old(nextEvent) && node == old(nextNode)
      ensures (nextEvent, nextNode) == if ev == Done then old((nextEvent, nextNode)) else Succ(root, ev, old(nextNode))
    {
      ev := nextEvent;
      event := nextEvent;
      node := nextNode;
      if ev == Done {
        return;
      }
      if ev == Enter && !Leaf(node.kind) {
        if node.firstChild == null {
          nextEvent := Exit;
        } else {
          nextNode := node.firstChild;
        }
      } else if node == root {
        nextEvent, nextNode := Done, null;
      } else if node.next != null {
        nextEvent, nextNode := Enter, node.next;
      } else if node.parent != null {
        nextEvent, nextNode := Exit, node.parent;
      } else {
        nextEvent, nextNode := Done, null;
      }
    }
  }

  ghost predicate StepsTo(root: Node, s: seq<(Event, Node)>, i: nat, after: (Event, Node?))
    requires i < |s|
    reads {s[i].1}`firstChild, {s[i].1}`next, {s[i].1}`parent
  {
    Succ(root, s[i].0, s[i].1) == if i + 1 < |s| then (s[i + 1].0, s[i + 1].1) else after
  }

  // The iterator takes the events one after the other, and then goes to after.
  ghost predicate Follows(root: Node, s: seq<(Event, Node)>, after: (Event, Node?))
    reads (set e <- s :: e.1)`firstChild, (set e <- s :: e.1)`next, (set e <- s :: e.1)`parent
  {
    forall i {:trigger StepsTo(root, s, i, after)} :: 0 <= i < |s| ==> StepsTo(root, s, i, after)
  }

  lemma FollowsJoin(root: Node, a: seq<(Event, Node)>, b: seq<(Event, Node)>, after: (Event, Node?))
    requires b != [] && Follows(root, a, (b[0].0, b[0].1)) && Follows(root, b, after)
    ensures Follows(root, a + b, after)
  {
    forall i | 0 <= i < |a + b| ensures StepsTo(root, a + b, i, after) {
      if i < |a| {
        assert StepsTo(root, a, i, (b[0].0, b[0].1));
      } else {
        assert StepsTo(root, b, i - |a|, after);
      }
    }
  }

  // Where the walk goes behind a node that is not its root.
  function Beyond(n: Node): (Event, Node?)
    reads {n}`next, {n}`parent
  {
    if n.next != null then (Enter, n.next) else (Exit, n.parent)
  }

  lemma {:induction false} TourFollows(root: Node, t: Branch)
    requires Matches(t) && root !in Preorder(t) && t.node.parent != null
    ensures Follows(root, Tour(t), Beyond(t.node))
    decreases t, 1
  {
    if Leaf(t.node.kind) {
      assert StepsTo(root, Tour(t), 0, Beyond(t.node));
    } else {
      InsideFollows(root, t);
      var exit := [(Exit, t.node)];
      assert StepsTo(root, exit, 0, Beyond(t.node));
      FollowsJoin(root, [(Enter, t.node)] + TourAll(t.kids), exit, Beyond(t.node));
    }
  }

  // From entering a node through all below it to leaving it.
  lemma {:induction false} InsideFollows(root: Node, t: Branch)
    requires Matches(t) && root !in PreorderAll(t.kids) && !Leaf(t.node.kind)
    ensures Follows(root, [(Enter, t.node)] + TourAll(t.kids), (Exit, t.node))
    decreases t, 0
  {
    var enter := [(Enter, t.node)];
    if t.kids == [] {
      assert StepsTo(root, enter + TourAll(t.kids), 0, (Exit, t.node));
    } else {
      KidsFollow(root, t, 0);
      assert t.kids[0..] == t.kids;
      assert StepsTo(root, enter, 0, (Enter, t.kids[0].node));
      FollowsJoin(root, enter, TourAll(t.kids), (Exit, t.node));
    }
  }

  lemma {:induction false} KidsFollow(root: Node, t: Branch, j: nat)
    requires Matches(t) && root !in PreorderAll(t.kids) && j < |t.kids|
    ensures TourAll(t.kids[j..]) != [] && TourAll(t.kids[j..])[0] == (Enter, t.kids[j].node)
    ensures Follows(root, TourAll(t.kids[j..]), (Exit, t.node))
    decreases t, 0, |t.kids| - j
  {
    var k := t.kids[j];
    Listed(t.kids);
    assert k in t.kids && Matches(k) && Leads(t.kids, j, null);
    TourFollows(root, k);
    assert t.kids[j..][1..] == t.kids[j + 1..];
    if j + 1 < |t.kids| {
      KidsFollow(root, t, j + 1);
      FollowsJoin(root, Tour(k), TourAll(t.kids[j + 1..]), (Exit, t.node));
    } else {
      assert TourAll(t.kids[j..]) == Tour(k);
    }
  }

  /** From its root the iterator takes exactly the recursive walk, and is then done. */
  lemma WalkIsTour(t: Branch)
    requires Matches(t) && t.node !in PreorderAll(t.kids)
    ensures Follows(t.node, Tour(t), (Done, null))
  {
    if Leaf(t.node.kind) {
      assert StepsTo(t.node, Tour(t), 0, (Done, null));
    } else {
      InsideFollows(t.node, t);
      var exit := [(Exit, t.node)];
      assert StepsTo(t.node, exit, 0, (Done, null));
      FollowsJoin(t.node, [(Enter, t.node)] + TourAll(t.kids), exit, (Done, null));
    }
  }

  // The loop of process_inlines and the renderers: next until done.
  method Walk(iter: Iter, ghost t: Branch) returns (events: seq<(Event, Node)>)
    requires iter.Valid() && iter.root == t.node && iter.nextEvent == Enter && iter.nextNode == t.node
    requires Matches(t) && t.node !in PreorderAll(t.kids)
    modifies iter
    ensures events == Tour(t)
  {
    WalkIsTour(t);
    ghost var s := Tour(t);
    events := [];
    var ev := iter.Next();
    while ev != Done
      invariant iter.Valid()
      invariant |events| <= |s| && events == s[..|events|]
      invariant if ev == Done then |events| == |s| else |events| < |s| && (ev, iter.node) == (s[|events|].0, s[|events|].1)
      invariant ev != Done ==> (iter.nextEvent, iter.nextNode) == Succ(iter.root, ev, iter.node)
      decreases |s| - |events|
    {
      assert old(StepsTo(iter.root, s, |events|, (Done, null)));
      events := events + [(ev, iter.node)];
      ev := iter.Next();
    }
  }
}
