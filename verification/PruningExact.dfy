/** When pruning changes the finished tree: exactly when some search of the run is not exact. */
module PruningExact {

  import opened Common
  import opened Emphasis
  import opened EmphasisTheorems

  // ---------- what each character of the source has become ----------

  // Text that may still turn into a mark, text for good, or a mark of an emphasis.
  datatype Tag = Loose | Plain | Mark

  function Same(t: Tag, n: nat): seq<Tag> {
    seq(n, _ => t)
  }

  function Tags(n: Inline): seq<Tag>
    decreases n, 0
  {
    match n
    case Leaf(src) => Same(Plain, |src|)
    case Emph(_, kids) => Same(Mark, 1) + TagsAll(kids) + Same(Mark, 1)
    case Strong(_, kids) => Same(Mark, 2) + TagsAll(kids) + Same(Mark, 2)
    case Link(image, kids, tail) => Same(Plain, |BracketText(image)|) + TagsAll(kids) + Same(Plain, |tail|)
  }

  function TagsAll(ns: seq<Inline>): seq<Tag>
    decreases ns, 0
  {
    if ns == [] then [] else Tags(ns[0]) + TagsAll(ns[1..])
  }

  function TagsOf(it: Item): seq<Tag> {
    match it
    case Node(n) => Tags(n)
    case Run(_, left) => Same(Loose, left)
    case Open(_, image) => Same(Loose, |BracketText(image)|)
  }

  function ItemTags(items: seq<Item>): seq<Tag> {
    if items == [] then [] else TagsOf(items[0]) + ItemTags(items[1..])
  }

  lemma {:induction false} ItemTagsConcat(a: seq<Item>, b: seq<Item>)
    ensures ItemTags(a + b) == ItemTags(a) + ItemTags(b)
  {
    if a == [] {
      assert a + b == b;
    } else {
      assert (a + b)[1..] == a[1..] + b;
      ItemTagsConcat(a[1..], b);
    }
  }

  lemma ItemTagsOne(it: Item)
    ensures ItemTags([it]) == TagsOf(it)
  {
    assert ItemTags([it]) == TagsOf(it) + ItemTags([]);
  }

  // What is settled stays.
  predicate Keeps(a: seq<Tag>, b: seq<Tag>) {
    |a| <= |b| && forall p | 0 <= p < |a| :: a[p] != Loose ==> b[p] == a[p]
  }

  // The tags of the finished nodes are those of the items, with nothing loose.
  lemma {:induction false} StripTags(items: seq<Item>)
    ensures |TagsAll(StripAll(items))| == |ItemTags(items)| && Keeps(ItemTags(items), TagsAll(StripAll(items)))
  {
    if items != [] {
      var (a, b, x, y) := (TagsOf(items[0]), ItemTags(items[1..]), Tags(Strip(items[0])), TagsAll(StripAll(items[1..])));
      StripTags(items[1..]);
      StripOne(items[0]);
      assert StripAll(items)[0] == Strip(items[0]) && StripAll(items)[1..] == StripAll(items[1..]);
      KeepsConcat(a, b, x, y);
    }
  }

  lemma StripOne(it: Item)
    ensures |Tags(Strip(it))| == |TagsOf(it)| && Keeps(TagsOf(it), Tags(Strip(it)))
  {
  }

  lemma KeepsConcat(a: seq<Tag>, b: seq<Tag>, x: seq<Tag>, y: seq<Tag>)
    requires |a| == |x| && Keeps(a, x) && Keeps(b, y)
    ensures Keeps(a + b, x + y)
  {
    forall p | 0 <= p < |a + b| && (a + b)[p] != Loose ensures (x + y)[p] == (a + b)[p] {
      assert if p < |a| then (x + y)[p] == x[p] else (x + y)[p] == y[p - |a|];
    }
  }

  // ---------- what a step settles ----------

  lemma SpentTags(run: Item, use: nat)
    requires run.Run? && use <= run.left
    ensures ItemTags(Spent(run, use)) == Same(Loose, run.left - use)
  {
    if run.left > use {
      ItemTagsOne(Run(run.d, run.left - use));
    }
  }

  lemma WrapTags(use: nat, mark: char, kids: seq<Inline>)
    requires use in {1, 2}
    ensures Tags(Wrap(use, mark, kids)) == Same(Mark, use) + TagsAll(kids) + Same(Mark, use)
  {
  }

  lemma SplitTags(items: seq<Item>, r: nat)
    requires r < |items| && items[r].Run?
    ensures ItemTags(items) == ItemTags(items[..r]) + (Same(Loose, items[r].left) + ItemTags(items[r + 1..]))
  {
    assert items == items[..r] + ([items[r]] + items[r + 1..]);
    ItemTagsConcat(items[..r], [items[r]] + items[r + 1..]);
    ItemTagsConcat([items[r]], items[r + 1..]);
    ItemTagsOne(items[r]);
  }

  // The marks take the place of the end of the opener's run, and those of the closer are the last.
  lemma InsertTags(s: State, r: nat)
    requires s.right != [] && s.right[0].Run? && r < |s.left| && s.left[r].Run? && WfState(s)
    ensures var (o, c) := (s.left[r], s.right[0]);
            var use := Use(o.left, c.left);
            && use <= o.left
            && ItemTags(Insert(s, r).left)
               == ItemTags(s.left[..r])
                  + (Same(Loose, o.left - use) + (Same(Mark, use) + TagsAll(StripAll(s.left[r + 1..])) + Same(Mark, use)))
  {
    var (o, c) := (s.left[r], s.right[0]);
    assert WfItem(o) && WfItem(c);
    var use := Use(o.left, c.left);
    var node := Node(Wrap(use, c.d.ch, StripAll(s.left[r + 1..])));
    assert s.left[..r] + Spent(o, use) + [node] == s.left[..r] + (Spent(o, use) + [node]);
    ItemTagsConcat(s.left[..r], Spent(o, use) + [node]);
    ItemTagsConcat(Spent(o, use), [node]);
    SpentTags(o, use);
    ItemTagsOne(node);
    WrapTags(use, c.d.ch, StripAll(s.left[r + 1..]));
  }

  lemma MarksInPlace(left: nat, use: nat, mid: seq<Tag>, kids: seq<Tag>)
    requires use <= left && |mid| == |kids| && Keeps(mid, kids)
    ensures Keeps(Same(Loose, left) + mid, Same(Loose, left - use) + (Same(Mark, use) + kids + Same(Mark, use)))
  {
    var marked := Same(Loose, left - use) + Same(Mark, use);
    assert Same(Loose, left - use) + (Same(Mark, use) + kids + Same(Mark, use)) == marked + (kids + Same(Mark, use));
    KeepsConcat(Same(Loose, left), mid, marked, kids + Same(Mark, use));
  }

  lemma InsertKeepsTags(s: State, r: nat)
    requires s.right != [] && s.right[0].Run? && r < |s.left| && s.left[r].Run? && WfState(s)
    ensures Keeps(ItemTags(s.left), ItemTags(Insert(s, r).left))
    ensures |ItemTags(s.left)| < |ItemTags(Insert(s, r).left)| && ItemTags(Insert(s, r).left)[|ItemTags(s.left)|] == Mark
  {
    var (o, c) := (s.left[r], s.right[0]);
    var use := Use(o.left, c.left);
    var (mid, kids) := (ItemTags(s.left[r + 1..]), TagsAll(StripAll(s.left[r + 1..])));
    SplitTags(s.left, r);
    InsertTags(s, r);
    StripTags(s.left[r + 1..]);
    MarksInPlace(o.left, use, mid, kids);
    KeepsConcat(ItemTags(s.left[..r]), Same(Loose, o.left) + mid, ItemTags(s.left[..r]),
                Same(Loose, o.left - use) + (Same(Mark, use) + kids + Same(Mark, use)));
  }

  // Moving the head across settles nothing that was loose before.
  lemma MoveKeepsTags(left: seq<Item>, it: Item)
    ensures Keeps(ItemTags(left), ItemTags(left + [it])) && ItemTags(left + [it]) == ItemTags(left) + TagsOf(it)
  {
    ItemTagsConcat(left, [it]);
    ItemTagsOne(it);
  }

  lemma StepKeepsTags(s: State, pruned: bool)
    requires s.right != [] && WfState(s)
    ensures Keeps(ItemTags(s.left), ItemTags(Step(s, pruned).left))
  {
    var c := s.right[0];
    if !AtCloser(s) {
      MoveKeepsTags(s.left, c);
    } else if Find(s, pruned).Some? {
      InsertKeepsTags(s, RunIndex(s.left, Find(s, pruned).value));
    } else {
      MoveKeepsTags(s.left, if c.d.canOpen then c else Node(Strip(c)));
    }
  }

  lemma KeepsOn(a: seq<Tag>, b: seq<Tag>, c: seq<Tag>)
    requires Keeps(a, b) && Keeps(b, c)
    ensures Keeps(a, c)
  {
  }

  /** A mark stays a mark and settled text stays text, to the end of the run and in the finished tree. */
  lemma {:induction false} ProcessKeepsTags(s: State, pruned: bool)
    requires WfState(s)
    ensures Keeps(ItemTags(s.left), TagsAll(StripAll(Process(s, pruned))))
    decreases Chars(s.left) + Chars(s.right), |s.right|
  {
    if s.right == [] {
      StripTags(s.left);
    } else {
      var t := Step(s, pruned);
      StepShape(s, pruned);
      StepKeepsTags(s, pruned);
      ProcessKeepsTags(t, pruned);
      KeepsOn(ItemTags(s.left), ItemTags(t.left), TagsAll(StripAll(Process(t, pruned))));
    }
  }

  // ---------- a search that is not exact changes the tree ----------

  predicate Exact(s: State) {
    AtCloser(s) ==> Find(s, true) == Find(s, false)
  }

  // Such a search misses, for a closer that cannot open: the pruned run makes it text for good.
  lemma InexactMisses(s: State)
    requires Inv(s) && !Exact(s)
    ensures Find(s, true).None? && Find(s, false).Some? && !s.right[0].d.canOpen
  {
    var (ds, c) := (Delims(s.left), s.right[0].d);
    PrunedSearchExact(s);
    var bottom := BottomOf(s.bottoms, c);
    if q: nat :| q < |ds| && bottom == Some(ds[q].pos) {
      SearchAbove(ds, q, c);
    } else {
      SearchNone(ds, bottom, c);
    }
  }

  // The place of the closer in the source is text in one tree and a mark in the other.
  lemma InexactDiffers(s: State)
    requires Inv(s) && !Exact(s)
    ensures StripAll(Process(s, true)) != StripAll(Process(s, false))
  {
    InexactMisses(s);
    var (c, p) := (s.right[0], |ItemTags(s.left)|);
    var (a, b) := (Step(s, true), Step(s, false));
    StepShape(s, true);
    StepShape(s, false);
    assert WfItem(c);
    MoveKeepsTags(s.left, Node(Strip(c)));
    assert ItemTags(a.left)[p] == Plain;
    InsertKeepsTags(s, RunIndex(s.left, Find(s, false).value));
    assert ItemTags(b.left)[p] == Mark;
    ProcessKeepsTags(a, true);
    ProcessKeepsTags(b, false);
  }

  // ---------- whole runs ----------

  // Every search from here on is exact.
  predicate ExactRun(s: State)
    requires WfState(s)
    decreases Chars(s.left) + Chars(s.right), |s.right|
  {
    s.right == [] || (StepShape(s, true); Exact(s) && ExactRun(Step(s, true)))
  }

  lemma {:induction false} TreesAgreeFrom(s: State)
    requires Inv(s)
    ensures StripAll(Process(s, true)) == StripAll(Process(s, false)) <==> ExactRun(s)
    decreases Chars(s.left) + Chars(s.right), |s.right|
  {
    if s.right != [] {
      StepShape(s, true);
      if Exact(s) {
        StepInv(s);
        assert Step(s, true) == Step(s, false);
        TreesAgreeFrom(Step(s, true));
      } else {
        InexactDiffers(s);
      }
    }
  }

  lemma {:induction false} AfterTurn(s: State, n: nat)
    ensures After(EmphasisTheorems.Turn(s), n) == After(s, n + 1)
    decreases n
  {
    if n > 0 {
      AfterTurn(s, n - 1);
    }
  }

  lemma {:induction false} StaysEnded(s: State, n: nat)
    requires s.right == []
    ensures After(s, n) == s
    decreases n
  {
    if n > 0 {
      StaysEnded(s, n - 1);
    }
  }

  lemma {:induction false} ExactLater(s: State, n: nat)
    requires WfState(s) && ExactRun(s)
    ensures Exact(After(s, n))
    decreases n
  {
    if s.right == [] {
      StaysEnded(s, n);
    } else if n > 0 {
      StepShape(s, true);
      AfterTurn(s, n - 1);
      ExactLater(Step(s, true), n - 1);
    }
  }

  lemma {:induction false} InexactFound(s: State) returns (n: nat)
    requires WfState(s) && !ExactRun(s)
    ensures !Exact(After(s, n))
    decreases Chars(s.left) + Chars(s.right), |s.right|
  {
    if !Exact(s) {
      n := 0;
    } else {
      StepShape(s, true);
      n := InexactFound(Step(s, true));
      AfterTurn(s, n);
      n := n + 1;
    }
  }

  /** Over whole runs: pruning leaves the tree as it is if and only if every search of the run finds what the full walk finds. */
  lemma TreesAgree(items: seq<Item>)
    requires Wf(items) && Ordered(Delims(items))
    ensures StripAll(Process(Start(items), true)) == StripAll(Process(Start(items), false))
            <==> forall n :: Exact(After(Start(items), n))
  {
    StartInv(items);
    TreesAgreeFrom(Start(items));
    var s := Start(items);
    if ExactRun(s) {
      forall n: nat ensures Exact(After(s, n)) {
        ExactLater(s, n);
      }
    } else {
      var n := InexactFound(s);
    }
  }
}
