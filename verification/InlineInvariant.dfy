/** Every event keeps the invariant between the siblings and the bracket stack. */
module InlineInvariant {
  import opened Common
  import opened Emphasis
  import opened EmphasisTheorems
  import opened InlineParse

  // ---------- links through emphasis resolution ----------

  lemma {:induction false} HasLinkConcat(a: seq<Inline>, b: seq<Inline>)
    ensures HasLinkAll(a + b) == (HasLinkAll(a) || HasLinkAll(b))
  {
    if a == [] {
      assert a + b == b;
    } else {
      assert (a + b)[1..] == a[1..] + b;
      HasLinkConcat(a[1..], b);
    }
  }

  lemma {:induction false} NoNestingConcat(a: seq<Inline>, b: seq<Inline>)
    ensures NoNestingAll(a + b) == (NoNestingAll(a) && NoNestingAll(b))
  {
    if a == [] {
      assert a + b == b;
    } else {
      assert (a + b)[1..] == a[1..] + b;
      NoNestingConcat(a[1..], b);
    }
  }

  predicate LinkIn(items: seq<Item>) {
    HasLinkAll(StripAll(items))
  }

  predicate FlatIn(items: seq<Item>) {
    NoNestingAll(StripAll(items))
  }

  lemma Joined(a: seq<Item>, b: seq<Item>)
    ensures LinkIn(a + b) == (LinkIn(a) || LinkIn(b))
    ensures FlatIn(a + b) == (FlatIn(a) && FlatIn(b))
  {
    StripConcat(a, b);
    HasLinkConcat(StripAll(a), StripAll(b));
    NoNestingConcat(StripAll(a), StripAll(b));
  }

  lemma Single(it: Item)
    ensures LinkIn([it]) == HasLink(Strip(it))
    ensures FlatIn([it]) == NoNesting(Strip(it))
  {
    var n := Strip(it);
    assert StripAll([it]) == [n] + StripAll([it][1..]) && [it][1..] == [];
    assert StripAll([it]) == [n] && [n][1..] == [];
    assert HasLinkAll([n]) == (HasLink(n) || HasLinkAll([n][1..]));
    assert NoNestingAll([n]) == (NoNesting(n) && NoNestingAll([n][1..]));
  }

  lemma Pieces(items: seq<Item>, r: nat)
    requires r < |items|
    ensures LinkIn(items) == (LinkIn(items[..r]) || HasLink(Strip(items[r])) || LinkIn(items[r + 1..]))
    ensures FlatIn(items) == (FlatIn(items[..r]) && NoNesting(Strip(items[r])) && FlatIn(items[r + 1..]))
  {
    assert items == items[..r] + ([items[r]] + items[r + 1..]);
    Joined(items[..r], [items[r]] + items[r + 1..]);
    Joined([items[r]], items[r + 1..]);
    Single(items[r]);
  }

  lemma SpentFlat(run: Item, use: nat)
    requires run.Run?
    ensures !LinkIn(Spent(run, use)) && FlatIn(Spent(run, use))
  {
    if run.left > use {
      Single(Run(run.d, run.left - use));
    }
  }

  lemma InsertLinks(s: State, r: nat)
    requires s.right != [] && s.right[0].Run? && r < |s.left| && s.left[r].Run?
    ensures var t := Insert(s, r);
            && (LinkIn(t.left) || LinkIn(t.right)) == (LinkIn(s.left) || LinkIn(s.right))
            && (FlatIn(t.left) && FlatIn(t.right)) == (FlatIn(s.left) && FlatIn(s.right))
  {
    var (o, c) := (s.left[r], s.right[0]);
    var use := Use(o.left, c.left);
    var node := Node(Wrap(use, c.d.ch, StripAll(s.left[r + 1..])));
    Pieces(s.left, r);
    Pieces(s.right, 0);
    Joined(s.left[..r] + Spent(o, use), [node]);
    Joined(s.left[..r], Spent(o, use));
    Joined(Spent(c, use), s.right[1..]);
    Single(node);
    SpentFlat(o, use);
    SpentFlat(c, use);
  }

  lemma StepLinks(s: State)
    requires s.right != []
    ensures var t := Step(s, true);
            && (LinkIn(t.left) || LinkIn(t.right)) == (LinkIn(s.left) || LinkIn(s.right))
            && (FlatIn(t.left) && FlatIn(t.right)) == (FlatIn(s.left) && FlatIn(s.right))
  {
    if AtCloser(s) && Find(s, true).Some? {
      InsertLinks(s, RunIndex(s.left, Find(s, true).value));
    } else {
      var t := Step(s, true);
      Pieces(s.right, 0);
      Joined(s.left, [t.left[|s.left|]]);
      Single(t.left[|s.left|]);
      Single(s.right[0]);
    }
  }

  lemma {:induction false} ProcessLinks(s: State)
    requires WfState(s)
    ensures LinkIn(Process(s, true)) == (LinkIn(s.left) || LinkIn(s.right))
    ensures FlatIn(Process(s, true)) == (FlatIn(s.left) && FlatIn(s.right))
    decreases Chars(s.left) + Chars(s.right), |s.right|
  {
    if s.right != [] {
      StepShape(s, true);
      StepLinks(s);
      ProcessLinks(Step(s, true));
    }
  }

  /** Resolving emphasis neither makes nor loses a link, nor nests one in another. */
  lemma ResolveLinks(items: seq<Item>)
    requires Wf(items)
    ensures HasLinkAll(Resolve(items)) == LinkIn(items)
    ensures NoNestingAll(Resolve(items)) == FlatIn(items)
  {
    ProcessLinks(Start(items));
  }

  // ---------- appending items that are no bracket text ----------

  predicate NoOpen(items: seq<Item>) {
    forall it | it in items :: !it.Open?
  }

  lemma {:induction false} LastOpenAppend(items: seq<Item>, tail: seq<Item>)
    requires NoOpen(tail)
    ensures LastOpen(items + tail) == LastOpen(items)
  {
    if tail == [] {
      assert items + tail == items;
    } else {
      var n := |tail| - 1;
      assert (items + tail)[..|items + tail| - 1] == items + tail[..n];
      assert (items + tail)[|items + tail| - 1] == tail[n];
      LastOpenAppend(items, tail[..n]);
    }
  }

  lemma BracketsAppend(items: seq<Item>, tail: seq<Item>, bs: seq<Bracket>)
    requires BracketsOk(items, bs) && NoOpen(tail)
    ensures BracketsOk(items + tail, bs)
  {
    LastOpenAppend(items, tail);
    if i: nat :| LastOpen(items) == Some(i) {
      assert (items + tail)[..i] == items[..i];
    }
  }

  lemma LinksAppend(items: seq<Item>, tail: seq<Item>, bs: seq<Bracket>, linkAbove: bool)
    requires LinksOk(items, bs, linkAbove || LinkIn(tail)) && NoOpen(tail)
    ensures LinksOk(items + tail, bs, linkAbove)
  {
    LastOpenAppend(items, tail);
    if i: nat :| LastOpen(items) == Some(i) {
      assert (items + tail)[..i] == items[..i];
      assert (items + tail)[i + 1..] == items[i + 1..] + tail;
      Joined(items[i + 1..], tail);
    }
  }

  lemma {:induction false} MarkedOk(items: seq<Item>, bs: seq<Bracket>)
    ensures BracketsOk(items, bs) ==> BracketsOk(items, MarkAfter(bs))
    ensures LinksOk(items, bs, false) ==> LinksOk(items, MarkAfter(bs), false)
    ensures ActivityOk(bs) ==> ActivityOk(MarkAfter(bs))
  {
    var ms := MarkAfter(bs);
    if bs != [] {
      assert ms[..|ms| - 1] == bs[..|bs| - 1];
      forall b | b in ms ensures exists c :: c in bs && c.image == b.image && c.active == b.active {
        var i :| 0 <= i < |ms| && ms[i] == b;
        assert bs[i] in bs;
      }
    }
  }

  lemma {:induction false} DeactivatedLinked(items: seq<Item>, bs: seq<Bracket>)
    requires BracketsOk(items, bs)
    ensures BracketsOk(items, Deactivate(bs))
    decreases |bs|
  {
    if bs != [] {
      assert Deactivate(bs)[..|bs| - 1] == Deactivate(bs[..|bs| - 1]);
      DeactivatedLinked(items[..LastOpen(items).value], bs[..|bs| - 1]);
    }
  }

  lemma {:induction false} DeactivatedLinks(items: seq<Item>, bs: seq<Bracket>, linkAbove: bool)
    requires BracketsOk(items, bs)
    ensures LinksOk(items, Deactivate(bs), linkAbove)
    decreases |bs|
  {
    if bs != [] {
      var i := LastOpen(items).value;
      assert Deactivate(bs)[..|bs| - 1] == Deactivate(bs[..|bs| - 1]);
      DeactivatedLinks(items[..i], bs[..|bs| - 1], linkAbove || LinkIn(items[i + 1..]));
    }
  }

  lemma DeactivatedOk(items: seq<Item>, bs: seq<Bracket>, linkAbove: bool)
    requires BracketsOk(items, bs) && ActivityOk(bs)
    ensures BracketsOk(items, Deactivate(bs))
    ensures LinksOk(items, Deactivate(bs), linkAbove)
    ensures ActivityOk(Deactivate(bs))
  {
    DeactivatedLinked(items, bs);
    DeactivatedLinks(items, bs, linkAbove);
  }

  lemma PrefixFacts(items: seq<Item>, i: nat)
    requires i <= |items| && Wf(items) && Ordered(Delims(items)) && FlatIn(items)
    ensures Wf(items[..i]) && Wf(items[i..])
    ensures Ordered(Delims(items[..i])) && Ordered(Delims(items[i..]))
    ensures FlatIn(items[..i]) && FlatIn(items[i..])
  {
    assert items == items[..i] + items[i..];
    DelimsConcat(items[..i], items[i..]);
    OrderedHalves(Delims(items[..i]), Delims(items[i..]));
    Joined(items[..i], items[i..]);
  }

  lemma OrderedHalves(a: seq<Delim>, b: seq<Delim>)
    requires Ordered(a + b)
    ensures Ordered(a) && Ordered(b)
  {
    forall j, k | 0 <= j < k < |b| ensures b[j].pos < b[k].pos {
      assert (a + b)[|a| + j].pos < (a + b)[|a| + k].pos;
    }
    forall j, k | 0 <= j < k < |a| ensures a[j].pos < a[k].pos {
      assert (a + b)[j].pos < (a + b)[k].pos;
    }
  }

  // ---------- the events ----------

  lemma AppendItems(items: seq<Item>, it: Item)
    requires Wf(items) && Ordered(Delims(items)) && FlatIn(items)
    requires WfItem(it) && NoNesting(Strip(it))
    requires it.Run? ==> forall x | x in Delims(items) :: x.pos < it.d.pos
    ensures Wf(items + [it]) && Ordered(Delims(items + [it])) && FlatIn(items + [it])
  {
    Single(it);
    DelimsPush(items, it);
    Joined(items, [it]);
  }

  lemma AppendStack(items: seq<Item>, bs: seq<Bracket>, it: Item)
    requires BracketsOk(items, bs) && LinksOk(items, bs, false) && !it.Open? && !HasLink(Strip(it))
    ensures BracketsOk(items + [it], bs) && LinksOk(items + [it], bs, false)
  {
    BracketsAppend(items, [it], bs);
    Single(it);
    LinksAppend(items, [it], bs, false);
  }

  lemma AppendKeeps(p: Parse, it: Item)
    requires ParseInv(p) && !it.Open? && WfItem(it)
    requires !HasLink(Strip(it)) && NoNesting(Strip(it))
    requires it.Run? ==> forall x | x in Delims(p.items) :: x.pos < it.d.pos
    ensures ParseInv(p.(items := p.items + [it]))
  {
    AppendItems(p.items, it);
    AppendStack(p.items, p.brackets, it);
  }

  lemma OpenKeeps(p: Parse, at: nat, image: bool)
    requires ParseInv(p)
    ensures ParseInv(OnOpen(p, at, image))
  {
    var q := OnOpen(p, at, image);
    var it := Open(at, image);
    var n := |p.items|;
    MarkedOk(p.items, p.brackets);
    DelimsPush(p.items, it);
    Single(it);
    Joined(p.items, [it]);
    assert q.items[..n] == p.items && q.items[n + 1..] == [];
    assert q.brackets[..|q.brackets| - 1] == MarkAfter(p.brackets);
    assert LinksOk(p.items, MarkAfter(p.brackets), false);
  }

  lemma ActivityBelow(bs: seq<Bracket>)
    requires ActivityOk(bs) && bs != []
    ensures ActivityOk(bs[..|bs| - 1])
  {
    forall b | b in bs[..|bs| - 1] ensures b in bs {}
  }

  // Facts about the bracket on top of the stack.
  lemma TopOf(p: Parse)
    requires ParseInv(p) && p.brackets != []
    ensures LastOpen(p.items).Some?
    ensures var i := LastOpen(p.items).value;
            var b := p.brackets[|p.brackets| - 1];
            var rest := p.brackets[..|p.brackets| - 1];
            && p.items[i] == Open(b.at, b.image) && b.prevDelim == LastDelim(p.items[..i])
            && BracketsOk(p.items[..i], rest) && ActivityOk(rest)
            && LinksOk(p.items[..i], rest, LinkIn(p.items[i + 1..]))
            && (b.active && !b.image ==> !LinkIn(p.items[i + 1..]))
            && NoOpen(p.items[i + 1..])
  {
    ActivityBelow(p.brackets);
  }

  lemma PopStack(items: seq<Item>, rest: seq<Bracket>, tail: seq<Item>, leaf: Item)
    requires BracketsOk(items, rest) && LinksOk(items, rest, LinkIn(tail)) && NoOpen(tail)
    requires leaf.Node? && leaf.inl.Leaf?
    ensures BracketsOk(items + ([leaf] + tail), rest) && LinksOk(items + ([leaf] + tail), rest, false)
  {
    Joined([leaf], tail);
    Single(leaf);
    BracketsAppend(items, [leaf] + tail, rest);
    LinksAppend(items, [leaf] + tail, rest, false);
  }

  lemma PopKeeps(p: Parse)
    requires ParseInv(p) && p.brackets != []
    ensures ParseInv(PopTop(p))
  {
    TopOf(p);
    var i := LastOpen(p.items).value;
    var rest := p.brackets[..|p.brackets| - 1];
    var leaf := Node(Leaf(BracketText(p.items[i].image)));
    var demoted := p.items[..i] + ([leaf] + p.items[i + 1..]);
    assert Demote(p.items, i) == demoted;
    PopStack(p.items[..i], rest, p.items[i + 1..], leaf);
    DemotedFacts(p.items, i, leaf);
    AppendKeeps(Parse(demoted, rest), CLOSE);
  }

  lemma DemotedFacts(items: seq<Item>, i: nat, leaf: Item)
    requires i < |items| && items[i].Open? && leaf == Node(Leaf(BracketText(items[i].image)))
    requires Wf(items) && Ordered(Delims(items)) && FlatIn(items)
    ensures var demoted := items[..i] + ([leaf] + items[i + 1..]);
            Wf(demoted) && Ordered(Delims(demoted)) && FlatIn(demoted)
  {
    DelimsConcat(items[..i], [leaf] + items[i + 1..]);
    DelimsConcat([leaf], items[i + 1..]);
    DelimsOne(leaf);
    SplitAt(items, i);
    DelimsOne(items[i]);
    assert [] + Delims(items[i + 1..]) == Delims(items[i + 1..]);
    assert Delims(items[..i]) + [] == Delims(items[..i]);
    Pieces(items, i);
    Joined(items[..i], [leaf] + items[i + 1..]);
    Joined([leaf], items[i + 1..]);
    Single(leaf);
  }

  // The stack part of closing a bracket: node stands for the new link or image.
  lemma CloseStack(items: seq<Item>, rest: seq<Bracket>, node: Item, image: bool, inside: bool)
    requires BracketsOk(items, rest) && ActivityOk(rest) && LinksOk(items, rest, inside)
    requires node.Node? && HasLink(node.inl) == (!image || inside)
    ensures var bs := if image then rest else Deactivate(rest);
            BracketsOk(items + [node], bs) && ActivityOk(bs) && LinksOk(items + [node], bs, false)
  {
    Single(node);
    if image {
      BracketsAppend(items, [node], rest);
      LinksAppend(items, [node], rest, false);
    } else {
      DeactivatedOk(items, rest, true);
      BracketsAppend(items, [node], Deactivate(rest));
      LinksAppend(items, [node], Deactivate(rest), false);
    }
  }

  // The sibling part.
  lemma CloseItems(items: seq<Item>, i: nat, image: bool, tail: string)
    requires i < |items| && Wf(items) && Ordered(Delims(items)) && FlatIn(items)
    requires !image ==> !LinkIn(items[i + 1..])
    ensures Wf(items[i + 1..])
    ensures var node := Node(Link(image, Resolve(items[i + 1..]), tail));
            && HasLink(node.inl) == (!image || LinkIn(items[i + 1..]))
            && Wf(items[..i] + [node]) && Ordered(Delims(items[..i] + [node])) && FlatIn(items[..i] + [node])
  {
    PrefixFacts(items, i);
    PrefixFacts(items, i + 1);
    ResolveLinks(items[i + 1..]);
    var node := Node(Link(image, Resolve(items[i + 1..]), tail));
    Single(node);
    Joined(items[..i], [node]);
    DelimsPush(items[..i], node);
    assert Delims(items[..i]) + [] == Delims(items[..i]);
  }

  lemma CloseKeeps(p: Parse, tail: string)
    requires ParseInv(p) && p.brackets != [] && p.brackets[|p.brackets| - 1].active
    ensures LastOpen(p.items).Some? && ParseInv(CloseWith(p, LastOpen(p.items).value, tail))
  {
    TopOf(p);
    var i := LastOpen(p.items).value;
    var b := p.brackets[|p.brackets| - 1];
    CloseItems(p.items, i, b.image, tail);
    CloseStack(p.items[..i], p.brackets[..|p.brackets| - 1], Node(Link(b.image, Resolve(p.items[i + 1..]), tail)),
               b.image, LinkIn(p.items[i + 1..]));
  }

  ghost predicate Below(items: seq<Item>, lo: nat) {
    forall x | x in Delims(items) :: x.pos < lo
  }

  ghost predicate EventOk(e: Event, lo: nat) {
    e.Delimiters? ==> e.d.length >= 1 && e.d.ch in {'*', '_'} && lo <= e.d.pos
  }

  function NextLo(e: Event, lo: nat): nat {
    if e.Delimiters? then e.d.pos + 1 else lo
  }

  lemma DemotedDelims(items: seq<Item>, i: nat)
    requires i < |items|
    ensures forall x | x in Delims(items[..i]) || x in Delims(items[i + 1..]) :: x in Delims(items)
  {
    SplitAt(items, i);
  }

  lemma OnBelow(p: Parse, e: Event, refs: set<string>, lo: nat)
    requires Wf(p.items) && Below(p.items, lo) && EventOk(e, lo)
    ensures Below(On(p, e, refs).items, NextLo(e, lo))
  {
    var q := On(p, e, refs);
    match e
    case Other(src) => DelimsPush(p.items, Node(Leaf(src)));
    case Delimiters(d) => DelimsPush(p.items, q.items[|p.items|]);
    case OpenBracket(at, image) => DelimsPush(p.items, Open(at, image));
    case CloseBracket(scan) =>
      if p.brackets == [] || LastOpen(p.items).None? {
        DelimsPush(p.items, CLOSE);
      } else {
        var i := LastOpen(p.items).value;
        DemotedDelims(p.items, i);
        if Outcome(p, scan, refs).Some? {
          DelimsPush(p.items[..i], q.items[i]);
        } else {
          var leaf := Node(Strip(p.items[i]));
          assert Demote(p.items, i) == p.items[..i] + ([leaf] + p.items[i + 1..]);
          DelimsConcat(p.items[..i], [leaf] + p.items[i + 1..]);
          DelimsConcat([leaf], p.items[i + 1..]);
          DelimsOne(leaf);
          DelimsPush(Demote(p.items, i), CLOSE);
        }
      }
  }

  /** Every event keeps the invariant. */
  lemma OnKeeps(p: Parse, e: Event, refs: set<string>, lo: nat)
    requires ParseInv(p) && Below(p.items, lo) && EventOk(e, lo)
    ensures ParseInv(On(p, e, refs)) && Below(On(p, e, refs).items, NextLo(e, lo))
  {
    OnBelow(p, e, refs, lo);
    match e
    case Other(src) => AppendKeeps(p, Node(Leaf(src)));
    case Delimiters(d) => AppendKeeps(p, OnDelimiters(p, d).items[|p.items|]);
    case OpenBracket(at, image) => OpenKeeps(p, at, image);
    case CloseBracket(scan) =>
      if p.brackets == [] {
        AppendKeeps(p, CLOSE);
      } else if Outcome(p, scan, refs).Some? {
        CloseKeeps(p, Outcome(p, scan, refs).value);
      } else {
        PopKeeps(p);
      }
  }
}
