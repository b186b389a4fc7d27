/** The inline parser of inlines.c over the linked delimiter list and the linked bracket stack. */
module InlineSubject {
  import opened Common
  import opened Emphasis
  import opened EmphasisTheorems
  import opened InlineParse
  import opened InlineInvariant
  import opened InlineRuns
  import opened DelimiterList
  import opened InsertEmphasis
  import opened EmphasisLoop
  import opened BracketList

  class Subject {
    const delims: Stack
    const brackets: Brackets
    var siblings: seq<Item>

    constructor ()
      ensures Valid() && Model() == Begin() && fresh(delims) && fresh(brackets)
      ensures delims.repr == {} && brackets.repr == {}
    {
      delims := new Stack();
      brackets := new Brackets();
      siblings := [];
      new;
      assert Model() == Parse([], []);
    }

    ghost function Model(): Parse
      requires brackets.Linked()
      reads this, brackets, brackets.repr
    {
      Parse(siblings, brackets.Contents())
    }

    // A bracket's previous_delimiter is a live pointer into the delimiter list.
    ghost predicate PointersLive()
      reads brackets, delims
    {
      forall b | b in brackets.entries && b.previousDelimiter != null :: b.previousDelimiter in delims.delims
    }

    // Both linked structures are sound and the delimiter list is the one of the siblings.
    ghost predicate Shape()
      reads this, delims, delims.repr, brackets, brackets.repr
    {
      && delims.Linked() && brackets.Linked()
      && Values(delims.delims) == Delims(siblings)
      && PointersLive()
    }

    ghost predicate Valid()
      reads this, delims, delims.repr, brackets, brackets.repr
    {
      Shape() && ParseInv(Model())
    }

    // Appends a node that no delimiter points at.
    method AppendItem(it: Item)
      requires Shape() && !it.Run?
      modifies this
      ensures Shape() && Model() == old(Model()).(items := old(siblings) + [it])
    {
      DelimsPush(siblings, it);
      siblings := siblings + [it];
    }

    /** handle_delim: the text of the run, and a delimiter when it can open or close. */
    method HandleDelim(d: Delim, ghost lo: nat)
      requires Shape() && Below(siblings, lo) && lo <= d.pos
      modifies this, delims, delims.repr
      ensures Shape() && Model() == OnDelimiters(old(Model()), d)
      ensures fresh(delims.repr - old(delims.repr))
    {
      if d.canOpen || d.canClose {
        PushDelimiter(d, lo);
      } else {
        AppendItem(Node(Leaf(Rep(d.ch, d.length))));
      }
    }

    // The text node of a run, and its delimiter.
    method PushDelimiter(d: Delim, ghost lo: nat)
      requires Shape() && Below(siblings, lo) && lo <= d.pos
      modifies this, delims, delims.repr
      ensures Shape() && fresh(delims.repr - old(delims.repr))
      ensures Model() == old(Model()).(items := old(siblings) + [Run(d, d.length)])
    {
      DelimsPush(siblings, Run(d, d.length));
      ghost var was := delims.delims;
      forall k | 0 <= k < |was| ensures was[k].d.pos < d.pos {
        assert Values(was)[k] in Delims(siblings);
      }
      delims.Push(d);
      assert Values(delims.delims) == Values(was) + [d];
      forall x | x in was ensures x in delims.delims {
        assert x in delims.delims[..|was|];
      }
      siblings := siblings + [Run(d, d.length)];
    }

    /** An opening bracket: its text node, and push_bracket. */
    method HandleOpenBracket(at: nat, image: bool)
      requires Shape()
      modifies this, brackets, brackets.repr
      ensures Shape() && Model() == OnOpen(old(Model()), at, image)
      ensures fresh(brackets.repr - old(brackets.repr))
    {
      ghost var p := Model();
      LastIsLast(delims.delims, siblings);
      PushBracket(at, image);
      assert Model() == p.(brackets := OnOpen(p, at, image).brackets);
      AppendItem(Open(at, image));
    }

    // push_bracket
    method PushBracket(at: nat, image: bool)
      requires brackets.Linked() && delims.Linked() && PointersLive()
      modifies brackets, brackets.repr
      ensures brackets.Linked() && PointersLive() && fresh(brackets.repr - old(brackets.repr))
      ensures brackets.Contents() == MarkAfter(old(brackets.Contents())) + [Bracket(at, image, true, false,
                if delims.delims == [] then None else Some(delims.delims[|delims.delims| - 1].d.pos))]
    {
      ghost var was := brackets.entries;
      brackets.Push(at, image, delims.last);
      forall b | b in brackets.entries && b.previousDelimiter != null ensures b.previousDelimiter in delims.delims {
        if b !in was {
          assert b == brackets.entries[|brackets.entries| - 1];
        }
      }
    }

    /** A closing bracket that makes no link: pop_bracket, and both brackets stay as text. */
    method PopUnmatched()
      requires Shape() && brackets.entries != []
      requires LastOpen(siblings).Some?
      modifies this, brackets
      ensures Shape() && Model() == PopTop(old(Model())) && brackets.repr == old(brackets.repr)
    {
      var i := LastOpen(siblings).value;
      DemoteDelims(siblings, i);
      siblings := Demote(siblings, i);
      PopBracket();
      AppendItem(CLOSE);
    }

    // pop_bracket
    method PopBracket()
      requires brackets.Linked() && PointersLive() && brackets.entries != []
      modifies brackets
      ensures brackets.Linked() && PointersLive() && brackets.repr == old(brackets.repr)
      ensures brackets.Contents() == old(brackets.Contents())[..|old(brackets.Contents())| - 1]
    {
      ghost var was := brackets.entries;
      brackets.Pop();
      assert forall b | b in brackets.entries :: b in was;
    }

    /** handle_close_bracket */
    method HandleCloseBracket(scan: Scan, refs: set<string>, ghost p: Parse)
      requires Shape() && p == Model() && Wf(p.items) && (brackets.entries != [] ==> LinkReady(p))
      modifies this, delims, delims.repr, brackets, brackets.repr
      ensures Shape() && Model() == OnClose(p, scan, refs)
      ensures delims.repr == old(delims.repr) && brackets.repr == old(brackets.repr)
    {
      if brackets.last == null {
        AppendItem(CLOSE);
      } else {
        CloseTop(scan, refs, p);
      }
    }

    // An inactive opener or a failed match pops the bracket; a match makes a link.
    method CloseTop(scan: Scan, refs: set<string>, ghost p: Parse)
      requires Shape() && LinkReady(p)
      modifies this, delims, delims.repr, brackets, brackets.repr
      ensures Shape() && Model() == OnClose(p, scan, refs)
      ensures delims.repr == old(delims.repr) && brackets.repr == old(brackets.repr)
    {
      var opener := brackets.last;
      assert opener.Value() == p.brackets[|p.brackets| - 1];
      var tail := None;
      if opener.active {
        tail := FindTail(scan, opener.bracketAfter, refs);
      }
      assert tail == Outcome(p, scan, refs);
      if tail.None? {
        PopUnmatched();
      } else {
        MakeLink(tail.value, p);
      }
    }

    /** parse_inline */
    method ParseInline(e: Event, refs: set<string>, ghost p: Parse, ghost lo: nat)
      requires Shape() && p == Model() && Wf(p.items) && Below(p.items, lo) && EventOk(e, lo)
      requires e.CloseBracket? && brackets.entries != [] ==> LinkReady(p)
      modifies this, delims, delims.repr, brackets, brackets.repr
      ensures Shape() && Model() == On(p, e, refs)
      ensures fresh(delims.repr - old(delims.repr)) && fresh(brackets.repr - old(brackets.repr))
    {
      match e
      case Other(src) => AppendItem(Node(Leaf(src)));
      case Delimiters(d) => HandleDelim(d, lo);
      case OpenBracket(at, image) => HandleOpenBracket(at, image);
      case CloseBracket(scan) => HandleCloseBracket(scan, refs, p);
    }

    // One event of a run that ends in end.
    method ParseNext(es: seq<Event>, refs: set<string>, ghost lo: nat, ghost end: Parse)
      requires Shape() && es != [] && RunsTo(Model(), es, refs, lo, end)
      modifies this, delims, delims.repr, brackets, brackets.repr
      ensures Shape() && RunsTo(Model(), es[1..], refs, NextLo(es[0], lo), end)
      ensures fresh(delims.repr - old(delims.repr)) && fresh(brackets.repr - old(brackets.repr))
    {
      ghost var p := Model();
      RunTurn(p, es, refs, lo, end);
      if brackets.entries != [] {
        TopReady();
      }
      ParseInline(es[0], refs, p, lo);
    }

    // What the parser invariant says about the top of the stack, in terms of the two lists.
    ghost predicate LinkReady(p: Parse)
      requires brackets.Linked()
      reads this, delims, delims.repr, brackets, brackets.repr
    {
      && p == Model() && Wf(p.items) && ActivityOk(p.brackets)
      && brackets.entries != [] && LastOpen(p.items).Some?
      && var i := LastOpen(p.items).value;
      && BottomAt(delims.delims, p.items, i, brackets.last.previousDelimiter)
      && LowerLive(delims.delims, brackets.entries, |Delims(p.items[..i])|)
    }

    lemma TopReady()
      requires Valid() && brackets.entries != []
      ensures LinkReady(Model())
    {
      var p := Model();
      var b := brackets.last;
      assert b.Value() == p.brackets[|p.brackets| - 1];
      BottomOfLink(delims.delims, p, b.previousDelimiter);
      LowerPointersLive(delims.delims, brackets.entries, p);
    }

    /** A closing bracket that makes a link or an image: the nodes behind the opener move under it, emphasis is resolved
        among them down to the opener's previous_delimiter, and a link deactivates the link openers before it. */
    method MakeLink(tail: string, ghost p: Parse)
      requires Shape() && LinkReady(p)
      modifies this, delims, delims.repr, brackets, brackets.repr
      ensures Shape() && Model() == CloseWith(p, LastOpen(p.items).value, tail)
      ensures delims.repr == old(delims.repr) && brackets.repr == old(brackets.repr)
    {
      var opener := brackets.last;
      assert opener.Value() == p.brackets[|brackets.entries| - 1];
      ghost var made := CloseWith(p, LastOpen(p.items).value, tail);
      TakeKids(opener, tail, p);
      assert siblings == made.items;
      PopLinkOpener(opener.image, p);
      assert brackets.Contents() == made.brackets;
    }

    // The nodes behind the opener become the children of the new node.
    method TakeKids(opener: BracketEntry, tail: string, ghost p: Parse)
      requires p.items == siblings && Wf(siblings) && LastOpen(siblings).Some? && delims.Linked() && brackets.entries != []
      requires BottomAt(delims.delims, siblings, LastOpen(siblings).value, opener.previousDelimiter)
      modifies this, delims, delims.repr
      ensures delims.Linked() && delims.repr == old(delims.repr)
      ensures var i := LastOpen(p.items).value;
              && siblings == p.items[..i] + [Node(Link(opener.image, ResolveSuffix(p.items, i + 1), tail))]
              && (LowerLive(old(delims.delims), brackets.entries, |Delims(p.items[..i])|) ==>
                    LowerLive(delims.delims, brackets.entries, |delims.delims|))
              && Values(delims.delims) == Delims(siblings)
    {
      var i := LastOpen(siblings).value;
      var kids := siblings[i + 1..];
      var nodes := ProcessEmphasis(delims, opener.previousDelimiter, kids, |Delims(siblings[..i])|);
      assert delims.delims[..|delims.delims|] == delims.delims;
      CloseDelims(siblings, i, Node(Link(opener.image, nodes, tail)));
      siblings := siblings[..i] + [Node(Link(opener.image, nodes, tail))];
    }

    // pop_bracket for the opener of a new link, and the deactivation of earlier link openers.
    method PopLinkOpener(image: bool, ghost p: Parse)
      requires brackets.Linked() && brackets.entries != [] && brackets.Contents() == p.brackets && ActivityOk(p.brackets)
      requires LowerLive(delims.delims, brackets.entries, |delims.delims|)
      modifies brackets, brackets.repr
      ensures brackets.Linked() && brackets.repr == old(brackets.repr) && PointersLive()
      ensures var rest := p.brackets[..|p.brackets| - 1];
              brackets.Contents() == if image then rest else InlineParse.Deactivate(rest)
    {
      LiveBelow(delims.delims, brackets.entries);
      ActivityBelow(p.brackets);
      EarlyBreakIsFullWalk(p.brackets[..|p.brackets| - 1]);
      brackets.Pop();
      if !image {
        brackets.DeactivateEarlier();
      }
    }
  }

  // What the brackets below the top one point at is on the list.
  lemma LiveBelow(ds: seq<Delimiter>, entries: seq<BracketEntry>)
    requires entries != [] && LowerLive(ds, entries, |ds|)
    ensures forall b | b in entries[..|entries| - 1] && b.previousDelimiter != null :: b.previousDelimiter in ds
  {
    assert ds[..|ds|] == ds;
  }

  ghost predicate BottomAt(ds: seq<Delimiter>, items: seq<Item>, i: nat, bottom: Delimiter?)
    requires i < |items|
  {
    var base := |Delims(items[..i])|;
    && base <= |ds| && Before(ds, base, bottom)
    && Values(ds[..base]) == Delims(items[..i])
    && Values(ds[base..]) == Delims(items[i + 1..])
  }

  // The brackets below the top one point at delimiters below place base.
  ghost predicate LowerLive(ds: seq<Delimiter>, entries: seq<BracketEntry>, base: nat)
    requires entries != []
  {
    && base <= |ds|
    && forall b | b in entries[..|entries| - 1] && b.previousDelimiter != null :: b.previousDelimiter in ds[..base]
  }

  lemma FoundBelow(ds: seq<Delimiter>, base: nat, x: Delimiter, d: Delim)
    requires Sorted(ds) && base <= |ds| && x in ds && d in Values(ds)[..base] && d.pos == x.d.pos
    ensures x in ds[..base]
  {
    var u :| 0 <= u < |ds| && ds[u] == x;
    var v :| 0 <= v < base && Values(ds)[v] == d;
    assert PosAt(ds, u) == PosAt(ds, v);
    assert ds[..base][v] == x;
  }

  lemma LowerOnList(p: Parse)
    requires ParseInv(p) && p.brackets != []
    ensures LastOpen(p.items).Some?
    ensures var low := p.items[..LastOpen(p.items).value];
            forall b | b in p.brackets[..|p.brackets| - 1] :: OnList(b.prevDelim, low)
  {
    TopOf(p);
    var i := LastOpen(p.items).value;
    PrefixFacts(p.items, i);
    PreviousDelimitersLive(p.items[..i], p.brackets[..|p.brackets| - 1]);
  }

  lemma LowerPointersLive(ds: seq<Delimiter>, entries: seq<BracketEntry>, p: Parse)
    requires Sorted(ds) && Values(ds) == Delims(p.items) && ParseInv(p) && entries != []
    requires BracketValues(entries) == p.brackets
    requires forall b | b in entries && b.previousDelimiter != null :: b.previousDelimiter in ds
    ensures LastOpen(p.items).Some?
    ensures LowerLive(ds, entries, |Delims(p.items[..LastOpen(p.items).value])|)
  {
    LowerOnList(p);
    var low := p.items[..LastOpen(p.items).value];
    PrefixDelims(p.items, |low|);
    LowerFound(ds, entries, p.brackets, low);
  }

  lemma LowerFound(ds: seq<Delimiter>, entries: seq<BracketEntry>, vs: seq<Bracket>, low: seq<Item>)
    requires Sorted(ds) && entries != [] && BracketValues(entries) == vs
    requires Delims(low) <= Values(ds)
    requires forall b | b in entries && b.previousDelimiter != null :: b.previousDelimiter in ds
    requires forall b | b in vs[..|vs| - 1] :: OnList(b.prevDelim, low)
    ensures LowerLive(ds, entries, |Delims(low)|)
  {
    var n := |entries| - 1;
    forall b | b in entries[..n] && b.previousDelimiter != null ensures b.previousDelimiter in ds[..|Delims(low)|] {
      var k :| 0 <= k < n && entries[k] == b;
      assert vs[..n][k] == b.Value();
      var d :| d in Delims(low) && d.pos == b.previousDelimiter.d.pos;
      FoundBelow(ds, |Delims(low)|, b.previousDelimiter, d);
    }
  }

  /** Whether the bracket closes a link or an image, and with which source text: an inline link, a full or collapsed
      reference, or a shortcut reference. */
  method FindTail(scan: Scan, bracketAfter: bool, refs: set<string>) returns (tail: Option<string>)
    ensures tail == LinkTail(scan, bracketAfter, refs)
  {
    if scan.inlineTail.Some? {
      return scan.inlineTail;
    }
    var foundLabel := scan.following.Some?;
    var rawLabel := if foundLabel then scan.following.value.raw else "";
    var src := if foundLabel then "]" + scan.following.value.src else "]";
    if (!foundLabel || rawLabel == "") && !bracketAfter {
      rawLabel := scan.slice;
      foundLabel := true;
    }
    if foundLabel && LookedUp(refs, rawLabel) {
      tail := Some(src);
    } else {
      tail := None;
    }
  }

  // The run from here on ends where the whole run ends.
  ghost predicate RunsTo(p: Parse, es: seq<Event>, refs: set<string>, lo: nat, end: Parse) {
    ParseInv(p) && Below(p.items, lo) && EventsFrom(es, lo) && RunEvents(p, es, refs, lo) == end
  }

  lemma RunTurn(p: Parse, es: seq<Event>, refs: set<string>, lo: nat, end: Parse)
    requires RunsTo(p, es, refs, lo, end) && es != []
    ensures Wf(p.items) && Below(p.items, lo) && EventOk(es[0], lo)
    ensures RunsTo(On(p, es[0], refs), es[1..], refs, NextLo(es[0], lo), end)
  {
    OnKeeps(p, es[0], refs, lo);
  }

  /** The loop of cmark_parse_inlines, for a run that ends in end. */
  method ParseEvents(subj: Subject, events: seq<Event>, refs: set<string>, ghost end: Parse) returns (ghost lo: nat)
    requires subj.Shape() && RunsTo(subj.Model(), events, refs, 0, end)
    modifies subj, subj.delims, subj.delims.repr, subj.brackets, subj.brackets.repr
    ensures subj.Shape() && RunsTo(subj.Model(), [], refs, lo, end)
    ensures fresh(subj.delims.repr - old(subj.delims.repr)) && fresh(subj.brackets.repr - old(subj.brackets.repr))
  {
    lo := 0;
    var rest := events;
    while rest != []
      invariant subj.Shape() && RunsTo(subj.Model(), rest, refs, lo, end)
      invariant fresh(subj.delims.repr - old(subj.delims.repr)) && fresh(subj.brackets.repr - old(subj.brackets.repr))
      decreases |rest|
    {
      subj.ParseNext(rest, refs, lo, end);
      lo, rest := NextLo(rest[0], lo), rest[1..];
    }
  }

  /** cmark_parse_inlines: all events, then emphasis down to the bottom of the list; both stacks end up empty. */
  method ParseAll(events: seq<Event>, refs: set<string>) returns (nodes: seq<Inline>, subj: Subject)
    requires EventsFrom(events, 0)
    ensures nodes == ParseInlines(events, refs)
    ensures subj.delims.delims == [] && subj.brackets.entries == []
  {
    subj := new Subject();
    ghost var end := RunEvents(Begin(), events, refs, 0);
    assert RunsTo(subj.Model(), events, refs, 0, end);
    ghost var lo := ParseEvents(subj, events, refs, end);
    assert subj.Model() == end;
    nodes := Finish(subj);
  }

  // The end of cmark_parse_inlines.
  method Finish(subj: Subject) returns (nodes: seq<Inline>)
    requires subj.Shape() && Wf(subj.siblings)
    modifies subj.delims, subj.delims.repr, subj.brackets, subj.brackets.repr
    ensures nodes == Resolve(subj.siblings)
    ensures subj.delims.delims == [] && subj.brackets.entries == []
  {
    ghost var ds := subj.delims.delims;
    assert ds[0..] == ds;
    nodes := ProcessEmphasis(subj.delims, null, subj.siblings, 0);
    FreeBrackets(subj.brackets);
  }

  method FreeBrackets(brackets: Brackets)
    requires brackets.Linked()
    modifies brackets
    ensures brackets.Linked() && brackets.entries == []
  {
    while brackets.last != null
      invariant brackets.Linked()
      decreases |brackets.entries|
    {
      brackets.Pop();
    }
  }

  lemma DemoteDelims(items: seq<Item>, i: nat)
    requires i < |items| && items[i].Open?
    ensures Delims(Demote(items, i)) == Delims(items)
  {
    var leaf := Node(Strip(items[i]));
    var ds := Demote(items, i);
    SplitAt(items, i);
    SplitAt(ds, i);
    assert ds[..i] == items[..i] && ds[i + 1..] == items[i + 1..];
    DelimsOne(leaf);
    DelimsOne(items[i]);
  }

  lemma CloseDelims(items: seq<Item>, i: nat, node: Item)
    requires i < |items| && node.Node?
    ensures Delims(items[..i] + [node]) == Delims(items[..i])
  {
    DelimsPush(items[..i], node);
  }

  // The top bracket's previous_delimiter is the stack bottom for the delimiters behind the bracket.
  lemma BottomOfLink(ds: seq<Delimiter>, p: Parse, bottom: Delimiter?)
    requires Sorted(ds) && Values(ds) == Delims(p.items) && ParseInv(p) && p.brackets != []
    requires p.brackets[|p.brackets| - 1].prevDelim == if bottom == null then None else Some(bottom.d.pos)
    requires bottom != null ==> bottom in ds
    ensures LastOpen(p.items).Some?
    ensures BottomAt(ds, p.items, LastOpen(p.items).value, bottom)
  {
    TopOf(p);
    BottomCutsAtBracket(p);
    var i := LastOpen(p.items).value;
    var low := Delims(p.items[..i]);
    var base := |low|;
    assert Values(ds[..base]) == Values(ds)[..base] == low;
    assert Values(ds[base..]) == Values(ds)[base..];
    if bottom != null {
      var u :| 0 <= u < |ds| && ds[u] == bottom;
      assert low[base - 1] == ds[base - 1].d;
      assert PosAt(ds, u) == PosAt(ds, base - 1);
    }
  }

  lemma LastIsLast(ds: seq<Delimiter>, items: seq<Item>)
    requires Values(ds) == Delims(items)
    ensures LastDelim(items) == if ds == [] then None else Some(ds[|ds| - 1].d.pos)
  {
    if ds != [] {
      assert Values(ds)[|ds| - 1] == ds[|ds| - 1].d;
    }
  }
}
