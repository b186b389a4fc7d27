/** What process_emphasis keeps, for every list of items and every number of steps. */
module EmphasisTheorems {
  import opened Common
  import opened Emphasis

  // ---------- the source text is preserved ----------

  lemma WrapText(use: nat, mark: char, items: seq<Item>)
    requires use in {1, 2}
    ensures Text([Node(Wrap(use, mark, StripAll(items)))]) == Rep(mark, use) + Text(items) + Rep(mark, use)
  {
    TextOne(Node(Wrap(use, mark, StripAll(items))));
    assert Rep(mark, 1) == [mark];
    assert Rep(mark, 2) == [mark, mark];
  }

  lemma SpentText(run: Item, use: nat)
    requires run.Run? && use <= run.left
    ensures Text([run]) == Text(Spent(run, use)) + Rep(run.d.ch, use)
    ensures Text([run]) == Rep(run.d.ch, use) + Text(Spent(run, use))
  {
    TextOne(run);
    if run.left > use {
      TextOne(Run(run.d, run.left - use));
    }
    assert Rep(run.d.ch, run.left) == Rep(run.d.ch, run.left - use) + Rep(run.d.ch, use);
    assert Rep(run.d.ch, run.left) == Rep(run.d.ch, use) + Rep(run.d.ch, run.left - use);
  }

  lemma Splice(tl: string, tr: string, sl: string, sr: string,
               a: string, so: string, m: string, i: string, sc: string, z: string)
    requires tl == a + so + (m + i + m) && tr == sc + z
    requires sl == a + (so + m) + i && sr == (m + sc) + z
    ensures tl + tr == sl + sr
  {
    assert tl + tr == a + so + m + i + m + sc + z;
  }

  lemma LeftText(s: State, r: nat, use: nat)
    requires r < |s.left| && s.left[r].Run? && use <= s.left[r].left
    ensures Text(s.left) == Text(s.left[..r]) + (Text(Spent(s.left[r], use)) + Rep(s.left[r].d.ch, use)) + Text(s.left[r + 1..])
  {
    SplitAt(s.left, r);
    SpentText(s.left[r], use);
  }

  lemma RightText(s: State, use: nat)
    requires s.right != [] && s.right[0].Run? && use <= s.right[0].left
    ensures Text(s.right) == (Rep(s.right[0].d.ch, use) + Text(Spent(s.right[0], use))) + Text(s.right[1..])
  {
    assert s.right == [s.right[0]] + s.right[1..];
    TextConcat([s.right[0]], s.right[1..]);
    SpentText(s.right[0], use);
  }

  lemma InsertedText(s: State, r: nat)
    requires s.right != [] && s.right[0].Run? && r < |s.left| && s.left[r].Run?
    ensures var (o, c, t) := (s.left[r], s.right[0], Insert(s, r));
            var use := Use(o.left, c.left);
            && Text(t.left) == Text(s.left[..r]) + Text(Spent(o, use)) + (Rep(c.d.ch, use) + Text(s.left[r + 1..]) + Rep(c.d.ch, use))
            && Text(t.right) == Text(Spent(c, use)) + Text(s.right[1..])
  {
    var (o, c) := (s.left[r], s.right[0]);
    var use := Use(o.left, c.left);
    var node := Node(Wrap(use, c.d.ch, StripAll(s.left[r + 1..])));
    TextConcat(s.left[..r] + Spent(o, use), [node]);
    TextConcat(s.left[..r], Spent(o, use));
    TextConcat(Spent(c, use), s.right[1..]);
    WrapText(use, c.d.ch, s.left[r + 1..]);
  }

  lemma InsertText(s: State, r: nat)
    requires s.right != [] && s.right[0].Run? && r < |s.left| && s.left[r].Run? && WfState(s)
    requires s.left[r].d.ch == s.right[0].d.ch
    ensures Text(Insert(s, r).left) + Text(Insert(s, r).right) == Text(s.left) + Text(s.right)
  {
    var (o, c, t) := (s.left[r], s.right[0], Insert(s, r));
    assert WfItem(o) && WfItem(c);
    var use := Use(o.left, c.left);
    LeftText(s, r, use);
    RightText(s, use);
    InsertedText(s, r);
    Splice(Text(t.left), Text(t.right), Text(s.left), Text(s.right), Text(s.left[..r]), Text(Spent(o, use)),
           Rep(c.d.ch, use), Text(s.left[r + 1..]), Text(Spent(c, use)), Text(s.right[1..]));
  }

  // Moving the head across, with or without its delimiter.
  lemma MoveText(left: seq<Item>, right: seq<Item>, kept: Item)
    requires right != [] && Strip(kept) == Strip(right[0])
    ensures Text(left + [kept]) + Text(right[1..]) == Text(left) + Text(right)
  {
    TextConcat(left, [kept]);
    TextOne(kept);
    TextOne(right[0]);
    assert right == [right[0]] + right[1..];
    TextConcat([right[0]], right[1..]);
  }

  lemma StepText(s: State, pruned: bool)
    requires s.right != [] && WfState(s)
    ensures Text(Step(s, pruned).left) + Text(Step(s, pruned).right) == Text(s.left) + Text(s.right)
  {
    if !AtCloser(s) {
      MoveText(s.left, s.right, s.right[0]);
    } else if Find(s, pruned).Some? {
      InsertText(s, RunIndex(s.left, Find(s, pruned).value));
    } else {
      var c := s.right[0];
      MoveText(s.left, s.right, if c.d.canOpen then c else Node(Strip(c)));
    }
  }

  /** Reading the resolved tree back gives the text of the items, whatever was matched and however partly. */
  lemma {:induction false} ProcessPreservesText(s: State, pruned: bool)
    requires WfState(s)
    ensures Text(Process(s, pruned)) == Text(s.left) + Text(s.right)
    decreases Chars(s.left) + Chars(s.right), |s.right|
  {
    if s.right != [] {
      StepShape(s, pruned);
      StepText(s, pruned);
      ProcessPreservesText(Step(s, pruned), pruned);
    }
  }

  lemma ResolvePreservesSource(items: seq<Item>)
    requires Wf(items)
    ensures SourceAll(Resolve(items)) == Text(items)
  {
    ProcessPreservesText(Start(items), true);
  }

  // ---------- the invariant of the pruned search ----------

  // A closer of the class that could also open: the strictest reader of the rule of three in its class.
  function Probe(k: Class): Delim {
    Delim(0, k.ch, true, true, k.m)
  }

  // A bottom lies before everything ahead; if its delimiter is still on the list, nothing at or below it
  // would match a closer of the class that can also open.
  ghost predicate BottomsOk(bottoms: map<Class, nat>, ds: seq<Delim>, ahead: seq<Delim>) {
    && (forall k, d | k in bottoms && d in ahead :: bottoms[k] < d.pos)
    && (forall k | k in bottoms :: k.m < 3)
    && (forall k, q, i | k in bottoms && 0 <= i <= q < |ds| && ds[q].pos == bottoms[k] :: !Matches(ds[i], Probe(k)))
  }

  // No delimiter that was passed over as a closer still has an opener to its left.
  ghost predicate Saturated(ds: seq<Delim>) {
    && (forall i, j | 0 <= i < j < |ds| && ds[j].canClose :: !Matches(ds[i], ds[j]))
    && (forall d | d in ds :: d.canClose ==> d.canOpen)
  }

  ghost predicate DelimsInv(bottoms: map<Class, nat>, ds: seq<Delim>, ahead: seq<Delim>) {
    && Ordered(ds) && Ordered(ahead)
    && (forall d, e | d in ds && e in ahead :: d.pos < e.pos)
    && Saturated(ds)
    && BottomsOk(bottoms, ds, ahead)
  }

  ghost predicate Inv(s: State) {
    WfState(s) && DelimsInv(s.bottoms, Delims(s.left), Delims(s.right))
  }

  lemma StartInv(items: seq<Item>)
    requires Wf(items) && Ordered(Delims(items))
    ensures Inv(Start(items))
  {}

  lemma {:induction false} SearchNone(ds: seq<Delim>, bottom: Option<nat>, c: Delim)
    requires bottom.None? || forall i | 0 <= i < |ds| :: ds[i].pos != bottom.value
    ensures Search(ds, bottom, c).None? <==> forall i | 0 <= i < |ds| :: !Matches(ds[i], c)
    ensures Search(ds, bottom, c) == Search(ds, None, c)
  {
    if ds != [] {
      SearchNone(ds[..|ds| - 1], bottom, c);
    }
  }

  // The walk never looks at or below a bottom that is on the list, and sees everything above it.
  lemma {:induction false} SearchAbove(ds: seq<Delim>, q: nat, c: Delim)
    requires q < |ds| && Ordered(ds)
    ensures var r := Search(ds, Some(ds[q].pos), c);
            && (r.Some? ==> r.value > q && r == Search(ds, None, c))
            && (r.None? <==> forall i | q < i < |ds| :: !Matches(ds[i], c))
  {
    var n := |ds| - 1;
    if n > q && !Matches(ds[n], c) {
      SearchAbove(ds[..n], q, c);
      assert ds[..n][q] == ds[q];
      forall i | q < i < n ensures ds[i] == ds[..n][i] {}
    }
  }

  // A delimiter that only opens, of the closer's character, which the rule of three keeps from a closer that
  // can also open but not from this one.
  predicate OneSided(o: Delim, c: Delim) {
    && o.canOpen && !o.canClose && o.ch == c.ch
    && !c.canOpen && c.length % 3 != 0 && (o.length + c.length) % 3 == 0
  }

  lemma ProbeIsStrictest(o: Delim, c: Delim)
    ensures Matches(o, Probe(ClassOf(c))) ==> Matches(o, c)
    ensures Matches(o, c) && !Matches(o, Probe(ClassOf(c))) <==> OneSided(o, c)
  {
    assert (o.length + c.length % 3) % 3 == (o.length + c.length) % 3;
  }

  ghost predicate HiddenOpener(ds: seq<Delim>, bottom: Option<nat>, c: Delim) {
    exists i, q | 0 <= i <= q < |ds| :: bottom == Some(ds[q].pos) && OneSided(ds[i], c)
  }

  // An opener for the closer lies above the bottom.
  ghost predicate OpenerAbove(ds: seq<Delim>, bottom: Option<nat>, c: Delim) {
    exists i, q | 0 <= q < i < |ds| :: bottom == Some(ds[q].pos) && Matches(ds[i], c)
  }

  lemma SearchExact(bottoms: map<Class, nat>, ds: seq<Delim>, ahead: seq<Delim>, c: Delim)
    requires DelimsInv(bottoms, ds, ahead)
    ensures var r := Search(ds, BottomOf(bottoms, c), c);
            r == Search(ds, None, c) <==> OpenerAbove(ds, BottomOf(bottoms, c), c) || !HiddenOpener(ds, BottomOf(bottoms, c), c)
  {
    var bottom := BottomOf(bottoms, c);
    if q: nat :| q < |ds| && bottom == Some(ds[q].pos) {
      SearchAbove(ds, q, c);
      SearchNone(ds, None, c);
      forall i | 0 <= i <= q ensures Matches(ds[i], c) <==> OneSided(ds[i], c) {
        ProbeIsStrictest(ds[i], c);
      }
    } else {
      SearchNone(ds, bottom, c);
    }
  }

  /** In every reachable state, the search cut off at openers_bottom gives what the full walk gives exactly when
      an opener lies above the bottom or no one-sided opener lies at or below it. A closer that can open, or whose
      length is a multiple of three, has no one-sided openers. */
  lemma PrunedSearchExact(s: State)
    requires Inv(s) && AtCloser(s)
    ensures var (ds, c) := (Delims(s.left), s.right[0].d);
            Find(s, true) == Find(s, false) <==>
            OpenerAbove(ds, BottomOf(s.bottoms, c), c) || !HiddenOpener(ds, BottomOf(s.bottoms, c), c)
    ensures s.right[0].d.canOpen || s.right[0].d.length % 3 == 0 ==> Find(s, true) == Find(s, false)
  {
    SearchExact(s.bottoms, Delims(s.left), Delims(s.right), s.right[0].d);
  }

  // ---------- every step keeps the invariant ----------

  lemma DelimsOne(it: Item)
    ensures Delims([it]) == if it.Run? then [it.d] else []
  {
    assert Delims([it]) == Delims([]) + if it.Run? then [it.d] else [];
  }

  lemma DelimsHead(items: seq<Item>)
    requires items != []
    ensures Delims(items) == (if items[0].Run? then [items[0].d] else []) + Delims(items[1..])
  {
    assert items == [items[0]] + items[1..];
    DelimsConcat([items[0]], items[1..]);
    DelimsOne(items[0]);
  }

  lemma DelimsPush(items: seq<Item>, it: Item)
    ensures Delims(items + [it]) == Delims(items) + if it.Run? then [it.d] else []
  {
    DelimsConcat(items, [it]);
    DelimsOne(it);
  }

  // Freeing delimiters from the end of what was passed, or from the head of what is ahead.
  lemma DropKeeps(bottoms: map<Class, nat>, ds: seq<Delim>, ahead: seq<Delim>, a: nat, b: nat)
    requires DelimsInv(bottoms, ds, ahead) && a <= |ds| && b <= |ahead|
    ensures DelimsInv(bottoms, ds[..a], ahead[b..])
  {}

  // Passing over a delimiter that is no closer, or one that can open and has no opener.
  lemma MoveKeeps(bottoms: map<Class, nat>, ds: seq<Delim>, ahead: seq<Delim>)
    requires DelimsInv(bottoms, ds, ahead) && ahead != []
    requires ahead[0].canClose ==> ahead[0].canOpen && forall i | 0 <= i < |ds| :: !Matches(ds[i], ahead[0])
    ensures DelimsInv(bottoms, ds + [ahead[0]], ahead[1..])
  {
    assert ahead[0] in ahead;
  }

  // Raising the bottom of a class after a search that found nothing.
  lemma RaiseKeeps(bottoms: map<Class, nat>, ds: seq<Delim>, ahead: seq<Delim>)
    requires DelimsInv(bottoms, ds, ahead) && ahead != []
    requires Search(ds, BottomOf(bottoms, ahead[0]), ahead[0]).None?
    ensures DelimsInv(SetBottom(bottoms, ahead[0], ds), ds, ahead)
  {
    var c := ahead[0];
    var k := ClassOf(c);
    var bottom := BottomOf(bottoms, c);
    forall i | 0 <= i < |ds| ensures !Matches(ds[i], Probe(k)) {
      ProbeIsStrictest(ds[i], c);
      if q: nat :| q < |ds| && bottom == Some(ds[q].pos) {
        SearchAbove(ds, q, c);
      } else {
        SearchNone(ds, bottom, c);
      }
    }
    if ds != [] {
      assert ds[|ds| - 1] in ds;
    }
  }

  lemma GiveUpDelims(s: State)
    requires s.right != [] && s.right[0].Run?
    ensures Delims(s.right) == [s.right[0].d] + Delims(GiveUp(s).right)
    ensures Delims(GiveUp(s).left) == Delims(s.left) + if s.right[0].d.canOpen then [s.right[0].d] else []
  {
    DelimsHead(s.right);
    DelimsPush(s.left, GiveUp(s).left[|s.left|]);
  }

  lemma GiveUpKeepsDelims(bottoms: map<Class, nat>, ds: seq<Delim>, ahead: seq<Delim>)
    requires DelimsInv(bottoms, ds, ahead) && ahead != [] && ahead[0].canClose
    requires Search(ds, BottomOf(bottoms, ahead[0]), ahead[0]).None?
    ensures DelimsInv(SetBottom(bottoms, ahead[0], ds), ds + if ahead[0].canOpen then [ahead[0]] else [], ahead[1..])
  {
    RaiseKeeps(bottoms, ds, ahead);
    if ahead[0].canOpen {
      SearchExact(bottoms, ds, ahead, ahead[0]);
      SearchNone(ds, None, ahead[0]);
      MoveKeeps(SetBottom(bottoms, ahead[0], ds), ds, ahead);
    } else {
      DropKeeps(SetBottom(bottoms, ahead[0], ds), ds, ahead, |ds|, 1);
      assert ds[..|ds|] == ds == ds + [];
    }
  }

  lemma GiveUpInv(s: State)
    requires Inv(s) && AtCloser(s) && Find(s, true).None?
    ensures Inv(GiveUp(s))
  {
    StepShape(s, true);
    GiveUpDelims(s);
    GiveUpKeepsDelims(s.bottoms, Delims(s.left), Delims(s.right));
    assert Delims(s.right)[1..] == Delims(GiveUp(s).right);
  }

  lemma SpentDelims(run: Item, use: nat)
    requires run.Run?
    ensures Delims(Spent(run, use)) == if run.left > use then [run.d] else []
  {
    if run.left > use {
      DelimsOne(Run(run.d, run.left - use));
    }
  }

  lemma RunPrefix(items: seq<Item>, i: nat)
    requires i < |Delims(items)|
    ensures Delims(items[..RunIndex(items, i)]) == Delims(items)[..i]
    ensures Delims(items)[..i + 1] == Delims(items)[..i] + [items[RunIndex(items, i)].d]
  {
    PrefixDelims(items, RunIndex(items, i));
  }

  lemma InsertDelimsLeft(s: State, i: nat, r: nat)
    requires s.right != [] && s.right[0].Run? && i < |Delims(s.left)| && r == RunIndex(s.left, i)
    ensures var o := s.left[r];
            Delims(Insert(s, r).left) == Delims(s.left)[..if o.left > Use(o.left, s.right[0].left) then i + 1 else i]
  {
    var (o, c) := (s.left[r], s.right[0]);
    var use := Use(o.left, c.left);
    DelimsPush(s.left[..r] + Spent(o, use), Node(Wrap(use, c.d.ch, StripAll(s.left[r + 1..]))));
    DelimsConcat(s.left[..r], Spent(o, use));
    SpentDelims(o, use);
    RunPrefix(s.left, i);
  }

  lemma PrefixDelims(items: seq<Item>, r: nat)
    requires r <= |items|
    ensures Delims(items[..r]) <= Delims(items)
  {
    assert items == items[..r] + items[r..];
    DelimsConcat(items[..r], items[r..]);
  }

  lemma InsertDelimsRight(s: State, r: nat)
    requires s.right != [] && s.right[0].Run? && r < |s.left| && s.left[r].Run?
    ensures |Delims(s.right)| > 0
    ensures var c := s.right[0];
            Delims(Insert(s, r).right) == if c.left > Use(s.left[r].left, c.left) then Delims(s.right) else Delims(s.right)[1..]
  {
    var c := s.right[0];
    var use := Use(s.left[r].left, c.left);
    DelimsHead(s.right);
    SpentDelims(c, use);
    DelimsConcat(Spent(c, use), s.right[1..]);
  }

  lemma InsertInv(s: State)
    requires Inv(s) && AtCloser(s) && Find(s, true).Some?
    ensures Inv(Step(s, true))
  {
    var i := Find(s, true).value;
    var (ds, ahead) := (Delims(s.left), Delims(s.right));
    var t := Step(s, true);
    StepShape(s, true);
    InsertDelimsLeft(s, i, RunIndex(s.left, i));
    InsertDelimsRight(s, RunIndex(s.left, i));
    var a := if Delims(t.left) == ds[..i] then i else i + 1;
    var b := if Delims(t.right) == ahead then 0 else 1;
    assert ahead[0..] == ahead;
    DropKeeps(s.bottoms, ds, ahead, a, b);
  }

  lemma StepInv(s: State)
    requires Inv(s) && s.right != []
    ensures Inv(Step(s, true))
  {
    if !AtCloser(s) {
      StepShape(s, true);
      var it := s.right[0];
      DelimsHead(s.right);
      DelimsPush(s.left, it);
      if it.Run? {
        MoveKeeps(s.bottoms, Delims(s.left), Delims(s.right));
        assert Delims(s.right)[1..] == Delims(s.right[1..]);
      } else {
        assert Delims(s.right) == Delims(s.right[1..]);
        assert Delims(Skip(s).left) == Delims(s.left);
      }
    } else if Find(s, true).None? {
      GiveUpInv(s);
    } else {
      InsertInv(s);
    }
  }

  function Turn(s: State): State {
    if s.right == [] then s else Step(s, true)
  }

  // The state after n turns of the loop, or the last one.
  function After(s: State, n: nat): State
    decreases n
  {
    if n == 0 then s else Turn(After(s, n - 1))
  }

  lemma TurnInv(s: State)
    requires Inv(s)
    ensures Inv(Turn(s))
  {
    if s.right != [] {
      StepInv(s);
    }
  }

  /** Every state the loop can reach satisfies the invariant. */
  lemma {:induction false} Reachable(s: State, n: nat)
    requires Inv(s)
    ensures Inv(After(s, n))
    decreases n
  {
    if n != 0 {
      Reachable(s, n - 1);
      TurnInv(After(s, n - 1));
    }
  }

  /** When the loop ends, no delimiter still on the list can close with an opener to its left: the pruned search
      missed nothing between the delimiters it kept. */
  lemma {:induction false} ProcessSaturates(s: State)
    requires Inv(s)
    ensures Saturated(Delims(Process(s, true))) && Ordered(Delims(Process(s, true)))
    decreases Chars(s.left) + Chars(s.right), |s.right|
  {
    if s.right != [] {
      StepShape(s, true);
      StepInv(s);
      ProcessSaturates(Step(s, true));
    }
  }
}
