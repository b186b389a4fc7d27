/** Whole runs of the inline parser: source preservation, links never nested, brackets never stale. */
module InlineRuns {
  import opened Common
  import opened Emphasis
  import opened EmphasisTheorems
  import opened InlineParse
  import opened InlineInvariant

  function RunEvents(p: Parse, es: seq<Event>, refs: set<string>, ghost lo: nat): (q: Parse)
    requires ParseInv(p) && Below(p.items, lo) && EventsFrom(es, lo)
    ensures ParseInv(q)
    decreases |es|
  {
    if es == [] then p
    else
      OnKeeps(p, es[0], refs, lo);
      RunEvents(On(p, es[0], refs), es[1..], refs, NextLo(es[0], lo))
  }

  function ConsumedAll(p: Parse, es: seq<Event>, refs: set<string>, ghost lo: nat): string
    requires ParseInv(p) && Below(p.items, lo) && EventsFrom(es, lo)
    decreases |es|
  {
    if es == [] then ""
    else
      OnKeeps(p, es[0], refs, lo);
      Consumed(p, es[0], refs) + ConsumedAll(On(p, es[0], refs), es[1..], refs, NextLo(es[0], lo))
  }

  function Begin(): (p: Parse)
    ensures ParseInv(p) && Below(p.items, 0)
  {
    Parse([], [])
  }

  /** cmark_parse_inlines: all events, then emphasis over everything left. */
  function ParseInlines(es: seq<Event>, refs: set<string>): seq<Inline>
    requires EventsFrom(es, 0)
  {
    Resolve(RunEvents(Begin(), es, refs, 0).items)
  }

  // ---------- source preservation ----------

  lemma Associative(a: string, b: string, c: string)
    ensures (a + b) + c == a + (b + c)
  {}

  lemma LinkText(image: bool, items: seq<Item>, tail: string)
    requires Wf(items)
    ensures Text([Node(Link(image, Resolve(items), tail))]) == BracketText(image) + Text(items) + tail
  {
    ResolvePreservesSource(items);
    TextOne(Node(Link(image, Resolve(items), tail)));
  }

  lemma CloseText(items: seq<Item>, i: nat, tail: string)
    requires i < |items| && items[i].Open? && Wf(items)
    ensures Wf(items[i + 1..])
    ensures Text(items[..i] + [Node(Link(items[i].image, Resolve(items[i + 1..]), tail))]) == Text(items) + tail
  {
    var (open, inner) := (items[i], items[i + 1..]);
    TextConcat(items[..i], [Node(Link(open.image, Resolve(inner), tail))]);
    LinkText(open.image, inner, tail);
    SplitAt(items, i);
    TextOne(open);
    Associative(Text(items[..i]), BracketText(open.image) + Text(inner), tail);
    Associative(Text(items[..i]), BracketText(open.image), Text(inner));
  }

  lemma DemoteText(items: seq<Item>, i: nat)
    requires i < |items|
    ensures Text(Demote(items, i)) == Text(items)
  {
    var leaf := Node(Strip(items[i]));
    var ds := Demote(items, i);
    SplitAt(items, i);
    SplitAt(ds, i);
    assert ds[..i] == items[..i] && ds[i + 1..] == items[i + 1..];
    TextOne(leaf);
    TextOne(items[i]);
  }

  lemma OnText(p: Parse, e: Event, refs: set<string>)
    requires ParseInv(p) && (e.Delimiters? ==> e.d.length >= 1)
    ensures Text(On(p, e, refs).items) == Text(p.items) + Consumed(p, e, refs)
  {
    if e.CloseBracket? && p.brackets != [] {
      TopOf(p);
      var i := LastOpen(p.items).value;
      match Outcome(p, e.scan, refs)
      case Some(tail) => CloseText(p.items, i, tail);
      case None =>
        DemoteText(p.items, i);
        TextConcat(Demote(p.items, i), [CLOSE]);
        TextOne(CLOSE);
    } else {
      var it := On(p, e, refs).items[|p.items|];
      TextConcat(p.items, [it]);
      TextOne(it);
    }
  }

  lemma {:induction false} RunText(p: Parse, es: seq<Event>, refs: set<string>, lo: nat)
    requires ParseInv(p) && Below(p.items, lo) && EventsFrom(es, lo)
    ensures Text(RunEvents(p, es, refs, lo).items) == Text(p.items) + ConsumedAll(p, es, refs, lo)
    decreases |es|
  {
    if es != [] {
      OnKeeps(p, es[0], refs, lo);
      OnText(p, es[0], refs);
      var q := On(p, es[0], refs);
      RunText(q, es[1..], refs, NextLo(es[0], lo));
      Associative(Text(p.items), Consumed(p, es[0], refs), ConsumedAll(q, es[1..], refs, NextLo(es[0], lo)));
    }
  }

  /** Reading the finished tree back gives the text the run consumed: brackets, link ends and delimiters included. */
  lemma SourcePreserved(es: seq<Event>, refs: set<string>)
    requires EventsFrom(es, 0)
    ensures SourceAll(ParseInlines(es, refs)) == ConsumedAll(Begin(), es, refs, 0)
  {
    RunText(Begin(), es, refs, 0);
    ResolvePreservesSource(RunEvents(Begin(), es, refs, 0).items);
  }

  // ---------- links ----------

  /** No link built from brackets contains another one at any depth, even through images and emphasis. */
  lemma LinksNeverNest(es: seq<Event>, refs: set<string>)
    requires EventsFrom(es, 0)
    ensures NoNestingAll(ParseInlines(es, refs))
  {
    ResolveLinks(RunEvents(Begin(), es, refs, 0).items);
  }

  // The loop of the source: from the top of the stack down, stopping at the first inactive non-image bracket.
  function DeactivateUntilInactive(bs: seq<Bracket>): seq<Bracket> {
    if bs == [] then []
    else
      var (b, rest) := (bs[|bs| - 1], bs[..|bs| - 1]);
      if b.image then DeactivateUntilInactive(rest) + [b]
      else if !b.active then bs
      else DeactivateUntilInactive(rest) + [b.(active := false)]
  }

  /** The early break loses nothing on a stack a run can produce. */
  lemma {:induction false} EarlyBreakIsFullWalk(bs: seq<Bracket>)
    requires ActivityOk(bs)
    ensures DeactivateUntilInactive(bs) == Deactivate(bs)
  {
    if bs != [] {
      var (n, rest) := (|bs| - 1, bs[..|bs| - 1]);
      forall b | b in rest ensures b in bs {}
      EarlyBreakIsFullWalk(rest);
      if !bs[n].image && !bs[n].active {
        forall i | 0 <= i < |bs| ensures Deactivate(bs)[i] == bs[i] {
          if i < n && !bs[i].image {
            assert !bs[i].active;
          }
        }
      }
    }
  }

  // ---------- previous_delimiter ----------

  ghost predicate OnList(p: Option<nat>, items: seq<Item>) {
    p.None? || exists d | d in Delims(items) :: d.pos == p.value
  }

  // None, the empty list, comes before every delimiter.
  predicate NotAfter(p: Option<nat>, q: Option<nat>) {
    p.None? || (q.Some? && p.value <= q.value)
  }

  lemma LastOnList(items: seq<Item>, i: nat)
    requires i <= |items| && Ordered(Delims(items))
    ensures OnList(LastDelim(items[..i]), items)
    ensures NotAfter(LastDelim(items[..i]), LastDelim(items))
  {
    assert items == items[..i] + items[i..];
    DelimsConcat(items[..i], items[i..]);
    var (a, b) := (Delims(items[..i]), Delims(items));
    if a != [] {
      assert a[|a| - 1] == b[|a| - 1] && b[|a| - 1] in b;
    }
  }

  /** Every stacked bracket's previous_delimiter is null or still on the delimiter list, and these positions do not
      decrease up the stack, so no call of process_emphasis starts from a stale bottom. */
  lemma {:induction false} PreviousDelimitersLive(items: seq<Item>, bs: seq<Bracket>)
    requires BracketsOk(items, bs) && Ordered(Delims(items))
    ensures forall b | b in bs :: OnList(b.prevDelim, items) && NotAfter(b.prevDelim, LastDelim(items))
    ensures forall j, k | 0 <= j < k < |bs| :: NotAfter(bs[j].prevDelim, bs[k].prevDelim)
    decreases |bs|
  {
    if bs != [] {
      var (i, n) := (LastOpen(items).value, |bs| - 1);
      LastOnList(items, i);
      assert items == items[..i] + items[i..];
      DelimsConcat(items[..i], items[i..]);
      var (a, b) := (Delims(items[..i]), Delims(items));
      forall j, k | 0 <= j < k < |a| ensures a[j].pos < a[k].pos {
        assert b[j].pos < b[k].pos;
      }
      PreviousDelimitersLive(items[..i], bs[..n]);
      forall x | x in bs ensures OnList(x.prevDelim, items) && NotAfter(x.prevDelim, LastDelim(items)) {
        if x in bs[..n] && x.prevDelim.Some? {
          assert OnList(x.prevDelim, items[..i]);
        }
      }
      forall j, k | 0 <= j < k < |bs| ensures NotAfter(bs[j].prevDelim, bs[k].prevDelim) {
        if k == n {
          assert bs[j] in bs[..n];
        } else {
          assert bs[..n][j] == bs[j] && bs[..n][k] == bs[k];
        }
      }
    }
  }

  /** The delimiters above the top bracket's previous_delimiter are exactly those of the siblings behind the bracket. */
  lemma BottomCutsAtBracket(p: Parse)
    requires ParseInv(p) && p.brackets != []
    ensures var i := LastOpen(p.items);
            i.Some? && p.brackets[|p.brackets| - 1].prevDelim == LastDelim(p.items[..i.value])
            && Delims(p.items) == Delims(p.items[..i.value]) + Delims(p.items[i.value + 1..])
  {
    TopOf(p);
    var i := LastOpen(p.items).value;
    SplitAt(p.items, i);
    DelimsOne(p.items[i]);
    assert Delims(p.items[..i]) + [] == Delims(p.items[..i]);
  }

  /** All of it in every state a run can reach. */
  lemma RunNeverStale(es: seq<Event>, refs: set<string>)
    requires EventsFrom(es, 0)
    ensures var p := RunEvents(Begin(), es, refs, 0);
            && (forall b | b in p.brackets :: OnList(b.prevDelim, p.items))
            && (forall j, k | 0 <= j < k < |p.brackets| :: NotAfter(p.brackets[j].prevDelim, p.brackets[k].prevDelim))
            && DeactivateUntilInactive(p.brackets) == Deactivate(p.brackets)
  {
    var p := RunEvents(Begin(), es, refs, 0);
    PreviousDelimitersLive(p.items, p.brackets);
    EarlyBreakIsFullWalk(p.brackets);
  }
}
