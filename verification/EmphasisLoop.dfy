/** The main loop of process_emphasis over the linked delimiter list. */
module EmphasisLoop {
  import opened Common
  import opened Emphasis
  import opened EmphasisTheorems
  import opened DelimiterList
  import opened InsertEmphasis

  // ---------- the list against the state ----------

  // The delimiters from place base to the closer at place j are those passed, the rest are those ahead.
  ghost predicate Aligned(ds: seq<Delimiter>, base: nat, j: nat, s: State) {
    && base <= j <= |ds|
    && Values(ds[base..j]) == Delims(s.left)
    && Values(ds[j..]) == Delims(s.right)
  }

  lemma HeadAligned(ds: seq<Delimiter>, base: nat, j: nat, s: State)
    requires Aligned(ds, base, j, s)
    ensures s.right != [] && s.right[0].Run? ==> j < |ds| && ds[j].d == s.right[0].d
    ensures s.right == [] ==> j == |ds|
  {
    if s.right != [] {
      DelimsHead(s.right);
      if s.right[0].Run? {
        assert Values(ds[j..])[0] == s.right[0].d;
      }
    }
  }

  lemma PassAligned(ds: seq<Delimiter>, base: nat, j: nat, s: State, t: State)
    requires Aligned(ds, base, j, s) && s.right != [] && s.right[0].Run?
    requires t.right == s.right[1..] && t.left == s.left + [s.right[0]]
    ensures Aligned(ds, base, j + 1, t)
  {
    HeadAligned(ds, base, j, s);
    DelimsHead(s.right);
    DelimsPush(s.left, s.right[0]);
    assert Values(ds[j + 1..]) == Values(ds[j..])[1..];
    assert Values(ds[base..j + 1]) == Values(ds[base..j]) + [ds[j].d];
  }

  lemma DropAligned(ds: seq<Delimiter>, base: nat, j: nat, s: State, t: State, it: Item)
    requires Aligned(ds, base, j, s) && s.right != [] && s.right[0].Run?
    requires t.right == s.right[1..] && !it.Run? && t.left == s.left + [it]
    ensures j < |ds| && Aligned(Cut(ds, j, j + 1), base, j, t)
  {
    HeadAligned(ds, base, j, s);
    DelimsHead(s.right);
    DelimsPush(s.left, it);
    assert Delims(s.left) + [] == Delims(s.left);
    assert Values(ds[j + 1..]) == Values(ds[j..])[1..];
    assert Cut(ds, j, j + 1)[j..] == ds[j + 1..] && Cut(ds, j, j + 1)[base..j] == ds[base..j];
  }

  // The two parts of the list that a match keeps, by value.
  lemma KeptValues(ds: seq<Delimiter>, base: nat, i: nat, j: nat, o: bool, c: bool)
    requires base + i < j < |ds|
    ensures var (kept, k) := (Kept(ds, base + i, j, o, c), if o then base + i + 1 else base + i);
            && base <= k <= |kept|
            && Values(kept[base..k]) == Values(ds[base..j])[..k - base]
            && Values(kept[k..]) == if c then Values(ds[j..]) else Values(ds[j..])[1..]
  {
    var (kept, k) := (Kept(ds, base + i, j, o, c), if o then base + i + 1 else base + i);
    assert kept[..k] == ds[..k];
    assert kept[base..k] == kept[..k][base..] == ds[base..k] == ds[base..j][..k - base];
    assert kept[k..] == ds[if c then j else j + 1..];
    assert ds[j + 1..] == ds[j..][1..];
  }

  lemma OpenerPlace(ds: seq<Delimiter>, base: nat, j: nat, s: State, i: nat)
    requires Aligned(ds, base, j, s) && s.right != [] && s.right[0].Run? && i < |Delims(s.left)|
    ensures base + i < j < |ds| && ds[base + i].d == s.left[RunIndex(s.left, i)].d
  {
    HeadAligned(ds, base, j, s);
    assert Values(ds[base..j])[i] == ds[base + i].d;
  }

  lemma InsertAligned(ds: seq<Delimiter>, base: nat, j: nat, s: State, i: nat)
    requires Aligned(ds, base, j, s) && s.right != [] && s.right[0].Run? && i < |Delims(s.left)|
    ensures var r := RunIndex(s.left, i);
            var use := Use(s.left[r].left, s.right[0].left);
            var (o, c) := (s.left[r].left > use, s.right[0].left > use);
            && base + i < j < |ds| && ds[base + i].d == s.left[r].d
            && Aligned(Kept(ds, base + i, j, o, c), base, if o then base + i + 1 else base + i, Insert(s, r))
  {
    var r := RunIndex(s.left, i);
    OpenerPlace(ds, base, j, s, i);
    InsertDelimsLeft(s, i, r);
    InsertDelimsRight(s, r);
    var use := Use(s.left[r].left, s.right[0].left);
    KeptValues(ds, base, i, j, s.left[r].left > use, s.right[0].left > use);
  }

  // ---------- openers_bottom ----------

  // The delimiters at the start of the call, by position. Entries of openers_bottom may point at one that was freed.
  ghost predicate Known(all: map<nat, Delimiter>, x: Delimiter) {
    x.d.pos in all && all[x.d.pos] == x
  }

  ghost predicate AllKnown(all: map<nat, Delimiter>, ds: seq<Delimiter>) {
    forall k | 0 <= k < |ds| :: Known(all, ds[k])
  }

  ghost predicate EntryOk(p: Delimiter?, k: Class, bottoms: map<Class, nat>, stackBottom: Delimiter?, all: map<nat, Delimiter>) {
    if k in bottoms then p != null && p.d.pos == bottoms[k] && Known(all, p) else p == stackBottom
  }

  const STAR: nat := 42
  const UNDERSCORE: nat := 95

  function Column(ch: char): nat
    requires ch in {'*', '_'}
  {
    if ch == '*' then STAR else UNDERSCORE
  }

  ghost predicate BottomsMatch(ob: array2<Delimiter?>, bottoms: map<Class, nat>, stackBottom: Delimiter?, all: map<nat, Delimiter>)
    requires ob.Length0 == 3 && ob.Length1 == 128
    reads ob
  {
    forall m | 0 <= m < 3 ::
      && EntryOk(ob[m, STAR], Class(m, '*'), bottoms, stackBottom, all)
      && EntryOk(ob[m, UNDERSCORE], Class(m, '_'), bottoms, stackBottom, all)
  }

  lemma EntryStops(ds: seq<Delimiter>, base: nat, p: Delimiter?, k: Class, bottoms: map<Class, nat>,
                   stackBottom: Delimiter?, all: map<nat, Delimiter>)
    requires Sorted(ds) && AllKnown(all, ds) && Before(ds, base, stackBottom) && EntryOk(p, k, bottoms, stackBottom, all)
    ensures forall t | base <= t < |ds| :: Stops(ds[t], p, if k in bottoms then Some(bottoms[k]) else None)
  {
    forall t | base <= t < |ds| ensures Stops(ds[t], p, if k in bottoms then Some(bottoms[k]) else None) {
      assert Known(all, ds[t]);
      if k !in bottoms && base > 0 {
        assert PosAt(ds, base - 1) < PosAt(ds, t);
      }
    }
  }

  // ---------- the loop ----------

  // The loop invariant: where the closer is, and what the siblings are, against the state on values.
  ghost predicate At(st: Stack, closer: Delimiter?, items: seq<Item>, base: nat, j: nat, s: State)
    reads st, st.repr
  {
    && st.Linked() && Aligned(st.delims, base, j, s)
    && closer == (if j < |st.delims| then st.delims[j] else null)
    && items == s.left + s.right && Ordered(Delims(items)) && WfState(s)
    && (s.right == [] || s.right[0].Run?)
  }

  lemma OrderedItems(ds: seq<Delimiter>, base: nat, j: nat, s: State)
    requires Aligned(ds, base, j, s) && Sorted(ds)
    ensures Ordered(Delims(s.left + s.right))
  {
    DelimsConcat(s.left, s.right);
    var w := Delims(s.left) + Delims(s.right);
    forall i, k | 0 <= i < k < |w| ensures w[i].pos < w[k].pos {
      assert PosAt(ds, base + i) < PosAt(ds, base + k);
      assert w[i] == ds[base + i].d && w[k] == ds[base + k].d;
    }
  }

  // Settling re-establishes the invariant after a step that left the list aligned.
  lemma Settled(st: Stack, closer: Delimiter?, base: nat, j: nat, s: State)
    requires st.Linked() && Aligned(st.delims, base, j, s) && WfState(s)
    requires closer == if j < |st.delims| then st.delims[j] else null
    ensures At(st, closer, s.left + s.right, base, j, Settle(s))
  {
    SettleFacts(s);
    OrderedItems(st.delims, base, j, s);
  }

  // The state after this turn, up to the next delimiter.
  function Next(s: State): State
    requires s.right != []
  {
    Settle(Step(s, true))
  }

  /** A closer that cannot close is passed over. */
  method PassOver(st: Stack, closer: Delimiter, items: seq<Item>, ghost base: nat, ghost j: nat, ghost s: State)
      returns (next: Delimiter?)
    requires At(st, closer, items, base, j, s) && s.right != [] && !closer.d.canClose
    ensures At(st, next, items, base, j + 1, Next(s))
  {
    HeadAligned(st.delims, base, j, s);
    StepBack(st, j);
    next := closer.next;
    StepShape(s, true);
    PassAligned(st.delims, base, j, s, Skip(s));
    assert s.left + s.right == Skip(s).left + Skip(s).right;
    Settled(st, next, base, j + 1, Skip(s));
  }

  // What is left of the list after a match.
  function KeptAfter(ds: seq<Delimiter>, base: nat, j: nat, s: State, i: nat): seq<Delimiter>
    requires s.right != [] && s.right[0].Run? && i < |Delims(s.left)| && base + i < j < |ds|
  {
    var r := RunIndex(s.left, i);
    var use := Use(s.left[r].left, s.right[0].left);
    Kept(ds, base + i, j, s.left[r].left > use, s.right[0].left > use)
  }

  // Everything the list part of a match needs: the opener's item r, the place k of the next closer, and which of the
  // two runs have characters left.
  lemma MatchFacts(ds: seq<Delimiter>, items: seq<Item>, base: nat, j: nat, s: State, i: nat)
      returns (r: nat, k: nat, o: bool, c: bool)
    requires Aligned(ds, base, j, s) && AtCloser(s) && Find(s, true) == Some(i)
    requires items == s.left + s.right && Ordered(Delims(items)) && WfState(s)
    ensures base + i < j < |ds| && CloserAt(s, r, items, ds[base + i].d, ds[j].d)
    ensures Step(s, true) == Insert(s, r) && WfState(Step(s, true))
    ensures var use := Use(s.left[r].left, s.right[0].left);
            o == (s.left[r].left > use) && c == (s.right[0].left > use)
    ensures var kept := Kept(ds, base + i, j, o, c);
            && kept == KeptAfter(ds, base, j, s, i) && Aligned(kept, base, k, Step(s, true))
            && (if c then ds[j] else if j + 1 < |ds| then ds[j + 1] else null) == (if k < |kept| then kept[k] else null)
  {
    HeadAligned(ds, base, j, s);
    InsertAligned(ds, base, j, s, i);
    StepShape(s, true);
    r := RunIndex(s.left, i);
    var use := Use(s.left[r].left, s.right[0].left);
    o, c := s.left[r].left > use, s.right[0].left > use;
    k := if o then base + i + 1 else base + i;
    NextPlace(ds, base + i, j, o, c);
  }

  lemma NextPlace(ds: seq<Delimiter>, i: nat, j: nat, o: bool, c: bool)
    requires i < j < |ds|
    ensures var (kept, k) := (Kept(ds, i, j, o, c), if o then i + 1 else i);
            (if c then ds[j] else if j + 1 < |ds| then ds[j + 1] else null) == (if k < |kept| then kept[k] else null)
  {}

  /** An opener was found. */
  method Match(st: Stack, opener: Delimiter, closer: Delimiter, items: seq<Item>,
               ghost base: nat, ghost j: nat, ghost s: State, ghost i: nat)
      returns (next: Delimiter?, spliced: seq<Item>, ghost k: nat)
    requires At(st, closer, items, base, j, s) && AtCloser(s) && Find(s, true) == Some(i)
    requires base + i < |st.delims| && opener == st.delims[base + i]
    modifies st, st.repr
    ensures st.repr == old(st.repr) && At(st, next, spliced, base, k, Next(s))
    ensures base + i < j < |old(st.delims)| && st.delims == KeptAfter(old(st.delims), base, j, s, i)
  {
    ghost var r, o, c;
    r, k, o, c := MatchFacts(st.delims, items, base, j, s, i);
    spliced, next := InsertEmph(st, opener, closer, items, base + i, j, s, r);
    Settled(st, next, base, k, Step(s, true));
  }

  lemma GiveUpShape(s: State)
    requires WfState(s) && AtCloser(s) && Find(s, true).None?
    ensures Step(s, true) == GiveUp(s) && WfState(GiveUp(s))
  {
    StepShape(s, true);
  }

  // No opener was found, and the closer can open: it stays on the list.
  method KeepCloser(st: Stack, closer: Delimiter, items: seq<Item>, ghost base: nat, ghost j: nat, ghost s: State)
      returns (next: Delimiter?)
    requires At(st, closer, items, base, j, s) && AtCloser(s) && Find(s, true).None? && closer.d.canOpen
    ensures At(st, next, items, base, j + 1, Next(s))
  {
    HeadAligned(st.delims, base, j, s);
    StepBack(st, j);
    next := closer.next;
    GiveUpShape(s);
    ghost var t := GiveUp(s);
    PassAligned(st.delims, base, j, s, t);
    assert t.left + t.right == s.left + s.right;
    Settled(st, next, base, j + 1, t);
  }

  lemma ReplaceHead(left: seq<Item>, right: seq<Item>, it: Item)
    requires right != []
    ensures (left + right)[|left| := it] == (left + [it]) + right[1..]
  {}

  lemma HeadLocated(s: State, items: seq<Item>)
    requires items == s.left + s.right && s.right != [] && s.right[0].Run? && Ordered(Delims(items))
    ensures Locate(items, s.right[0].d) == |s.left| < |items| && items[|s.left|] == s.right[0]
  {
    assert items[|s.left|] == s.right[0];
    LocateIs(items, |s.left|);
  }

  lemma DropFacts(ds: seq<Delimiter>, items: seq<Item>, base: nat, j: nat, s: State)
    requires Aligned(ds, base, j, s) && AtCloser(s) && !s.right[0].d.canOpen
    requires items == s.left + s.right && Ordered(Delims(items))
    ensures j < |ds| && ds[j].d == s.right[0].d
    ensures Aligned(Cut(ds, j, j + 1), base, j, GiveUp(s))
    ensures var at := Locate(items, ds[j].d);
            && at < |items|
            && GiveUp(s).left + GiveUp(s).right == items[at := Node(Strip(items[at]))]
  {
    var it := Node(Strip(s.right[0]));
    HeadAligned(ds, base, j, s);
    HeadLocated(s, items);
    ReplaceHead(s.left, s.right, it);
    DropAligned(ds, base, j, s, GiveUp(s), it);
  }

  // No opener was found, and the closer cannot open: it leaves the list.
  method DropCloser(st: Stack, closer: Delimiter, items: seq<Item>, ghost base: nat, ghost j: nat, ghost s: State)
      returns (next: Delimiter?, items': seq<Item>)
    requires At(st, closer, items, base, j, s) && AtCloser(s) && Find(s, true).None? && !closer.d.canOpen
    modifies st, st.repr
    ensures st.repr == old(st.repr) && At(st, next, items', base, j, Next(s))
    ensures j < |old(st.delims)| && st.delims == Cut(old(st.delims), j, j + 1)
  {
    HeadAligned(st.delims, base, j, s);
    DropFacts(st.delims, items, base, j, s);
    GiveUpShape(s);
    StepBack(st, j);
    next := closer.next;
    var at := Locate(items, closer.d);
    items' := items[at := Node(Strip(items[at]))];
    st.Remove(closer, j);
    Settled(st, next, base, j, GiveUp(s));
  }

  /** No opener was found: a closer that cannot open leaves the list. */
  method NoMatch(st: Stack, closer: Delimiter, items: seq<Item>, ghost base: nat, ghost j: nat, ghost s: State)
      returns (next: Delimiter?, items': seq<Item>, ghost k: nat)
    requires At(st, closer, items, base, j, s) && AtCloser(s) && Find(s, true).None?
    modifies st, st.repr
    ensures st.repr == old(st.repr) && At(st, next, items', base, k, Next(s))
    ensures j < |old(st.delims)|
    ensures st.delims == old(st.delims) || st.delims == Cut(old(st.delims), j, j + 1)
  {
    HeadAligned(st.delims, base, j, s);
    items', k := items, j;
    if closer.d.canOpen {
      next := KeepCloser(st, closer, items, base, j, s);
      k := j + 1;
    } else {
      next, items' := DropCloser(st, closer, items, base, j, s);
    }
  }

  // ---------- process_emphasis ----------

  ghost function ByPosition(ds: seq<Delimiter>): map<nat, Delimiter> {
    if ds == [] then map[] else ByPosition(ds[..|ds| - 1])[ds[|ds| - 1].d.pos := ds[|ds| - 1]]
  }

  lemma {:induction false} ByPositionKnows(ds: seq<Delimiter>)
    requires Sorted(ds)
    ensures AllKnown(ByPosition(ds), ds)
    ensures forall p | p in ByPosition(ds) :: exists k :: 0 <= k < |ds| && PosAt(ds, k) == p
  {
    var n := |ds| - 1;
    if ds != [] {
      var es := ds[..n];
      forall i, k | 0 <= i < k < n ensures PosAt(es, i) < PosAt(es, k) {
        assert PosAt(es, i) == PosAt(ds, i) && PosAt(es, k) == PosAt(ds, k);
      }
      ByPositionKnows(es);
      forall k | 0 <= k < |ds| ensures Known(ByPosition(ds), ds[k]) {
        if k < n {
          assert Known(ByPosition(es), es[k]) && PosAt(ds, k) < PosAt(ds, n);
        }
      }
      forall p | p in ByPosition(ds) ensures exists k :: 0 <= k < |ds| && PosAt(ds, k) == p {
        if p == PosAt(ds, n) {
        } else {
          var k :| 0 <= k < |es| && PosAt(es, k) == p;
          assert PosAt(ds, k) == p;
        }
      }
    }
  }

  /** Moves back to the first delimiter above the stack bottom, or off the list when there is none. */
  method FirstAbove(st: Stack, stackBottom: Delimiter?, ghost base: nat) returns (closer: Delimiter?)
    requires st.Linked() && Before(st.delims, base, stackBottom)
    ensures closer == if base < |st.delims| then st.delims[base] else null
  {
    closer := st.last;
    ghost var j: int := |st.delims| - 1;
    while closer != null && closer.previous != stackBottom
      invariant -1 <= j < |st.delims| && (base < |st.delims| ==> base <= j)
      invariant closer == if j == -1 then null else st.delims[j]
      decreases j
    {
      StepBack(st, j);
      if j <= base {
        Distinct(st.delims);
      }
      closer := closer.previous;
      j := j - 1;
    }
    if closer != null {
      StepBack(st, j);
      if j != base {
        Distinct(st.delims);
      }
    }
  }

  // What stays true of the list between turns: nothing below base moves, and no delimiter is new.
  ghost predicate Trimmed(was: seq<Delimiter>, ds: seq<Delimiter>, base: nat, all: map<nat, Delimiter>) {
    && base <= |was| && base <= |ds| && ds[..base] == was[..base]
    && AllKnown(all, ds)
  }

  lemma TrimmedCut(was: seq<Delimiter>, ds: seq<Delimiter>, base: nat, all: map<nat, Delimiter>, i: nat, j: nat)
    requires Trimmed(was, ds, base, all) && base <= i <= j <= |ds|
    ensures Trimmed(was, Cut(ds, i, j), base, all)
  {
    forall k | 0 <= k < |Cut(ds, i, j)| ensures Known(all, Cut(ds, i, j)[k]) {
      assert Known(all, ds[if k < i then k else k + j - i]);
    }
  }

  ghost predicate Prepared(ob: array2<Delimiter?>) {
    ob.Length0 == 3 && ob.Length1 == 128
  }

  lemma CloserFacts(ds: seq<Delimiter>, base: nat, j: nat, s: State)
    requires Aligned(ds, base, j, s) && WfState(s) && s.right != [] && s.right[0].Run?
    ensures j < |ds| && ds[j].d == s.right[0].d && ds[j].d.ch in {'*', '_'}
    ensures Values(ds[base..j]) == Delims(s.left)
  {
    HeadAligned(ds, base, j, s);
    assert WfItem(s.right[0]);
  }

  lemma NextBottoms(s: State)
    requires WfState(s) && s.right != []
    ensures Next(s).bottoms ==
            if AtCloser(s) && Find(s, true).None? then SetBottom(s.bottoms, s.right[0].d, Delims(s.left)) else s.bottoms
  {
    StepShape(s, true);
    SettleFacts(Step(s, true));
  }

  // The entry a failed search writes.
  lemma RaisedEntry(ds: seq<Delimiter>, base: nat, j: nat, s: State, below: Delimiter?, stackBottom: Delimiter?,
                    all: map<nat, Delimiter>)
    requires Aligned(ds, base, j, s) && s.right != [] && s.right[0].Run? && AllKnown(all, ds)
    requires Before(ds, j, below) && Before(ds, base, stackBottom)
    ensures EntryOk(below, ClassOf(s.right[0].d), SetBottom(s.bottoms, s.right[0].d, Delims(s.left)), stackBottom, all)
  {
    if j > base {
      assert Known(all, ds[j - 1]);
      assert Values(ds[base..j])[j - base - 1] == ds[j - 1].d;
    }
  }

  lemma OtherEntry(p: Delimiter?, k: Class, bottoms: map<Class, nat>, c: Delim, ds: seq<Delim>, stackBottom: Delimiter?,
                   all: map<nat, Delimiter>)
    requires EntryOk(p, k, bottoms, stackBottom, all) && k != ClassOf(c)
    ensures EntryOk(p, k, SetBottom(bottoms, c, ds), stackBottom, all)
  {}

  /** Writes an entry of openers_bottom. */
  method RaiseBottom(ob: array2<Delimiter?>, c: Delim, below: Delimiter?, ghost bottoms: map<Class, nat>,
                     ghost ds: seq<Delim>, ghost stackBottom: Delimiter?, ghost all: map<nat, Delimiter>)
    requires Prepared(ob) && BottomsMatch(ob, bottoms, stackBottom, all) && c.ch in {'*', '_'}
    requires EntryOk(below, ClassOf(c), SetBottom(bottoms, c, ds), stackBottom, all)
    modifies ob
    ensures BottomsMatch(ob, SetBottom(bottoms, c, ds), stackBottom, all)
  {
    ob[c.length % 3, Column(c.ch)] := below;
    forall m | 0 <= m < 3
      ensures EntryOk(ob[m, STAR], Class(m, '*'), SetBottom(bottoms, c, ds), stackBottom, all)
      ensures EntryOk(ob[m, UNDERSCORE], Class(m, '_'), SetBottom(bottoms, c, ds), stackBottom, all)
    {
      assert EntryOk(old(ob[m, STAR]), Class(m, '*'), bottoms, stackBottom, all);
      assert EntryOk(old(ob[m, UNDERSCORE]), Class(m, '_'), bottoms, stackBottom, all);
      if Class(m, '*') != ClassOf(c) {
        OtherEntry(old(ob[m, STAR]), Class(m, '*'), bottoms, c, ds, stackBottom, all);
      }
      if Class(m, '_') != ClassOf(c) {
        OtherEntry(old(ob[m, UNDERSCORE]), Class(m, '_'), bottoms, c, ds, stackBottom, all);
      }
    }
  }

  /** The search of one turn, for a closer that can close. */
  method Look(st: Stack, closer: Delimiter, stackBottom: Delimiter?, ob: array2<Delimiter?>,
              ghost all: map<nat, Delimiter>, ghost base: nat, ghost j: nat, ghost s: State)
      returns (opener: Delimiter?, found: bool)
    requires st.Linked() && Aligned(st.delims, base, j, s) && WfState(s) && AtCloser(s)
    requires j < |st.delims| && closer == st.delims[j]
    requires AllKnown(all, st.delims) && Before(st.delims, base, stackBottom)
    requires Prepared(ob) && BottomsMatch(ob, s.bottoms, stackBottom, all)
    ensures found == Find(s, true).Some?
    ensures found ==> base + Find(s, true).value < |st.delims| && opener == st.delims[base + Find(s, true).value]
  {
    CloserFacts(st.delims, base, j, s);
    var entry := ob[closer.d.length % 3, Column(closer.d.ch)];
    EntryStops(st.delims, base, entry, ClassOf(closer.d), s.bottoms, stackBottom, all);
    opener, found := FindOpener(st, closer, stackBottom, entry, base, j, BottomOf(s.bottoms, closer.d));
  }

  // The whole loop invariant.
  ghost predicate LoopInv(st: Stack, closer: Delimiter?, items: seq<Item>, stackBottom: Delimiter?, ob: array2<Delimiter?>,
                          was: seq<Delimiter>, all: map<nat, Delimiter>, base: nat, j: nat, s: State)
    reads st, st.repr, ob
  {
    && At(st, closer, items, base, j, s)
    && Trimmed(was, st.delims, base, all) && Before(was, base, stackBottom)
    && Prepared(ob) && BottomsMatch(ob, s.bottoms, stackBottom, all)
  }

  /** A turn for a closer that cannot close. */
  method Pass(st: Stack, closer: Delimiter, items: seq<Item>, stackBottom: Delimiter?, ob: array2<Delimiter?>,
              ghost was: seq<Delimiter>, ghost all: map<nat, Delimiter>, ghost base: nat, ghost j: nat, ghost s: State)
      returns (next: Delimiter?)
    requires LoopInv(st, closer, items, stackBottom, ob, was, all, base, j, s) && s.right != [] && !closer.d.canClose
    ensures LoopInv(st, next, items, stackBottom, ob, was, all, base, j + 1, Next(s))
  {
    CloserFacts(st.delims, base, j, s);
    NextBottoms(s);
    next := PassOver(st, closer, items, base, j, s);
  }

  /** The part of a turn after a search that found the opener. */
  method Succeed(st: Stack, opener: Delimiter, closer: Delimiter, items: seq<Item>, stackBottom: Delimiter?,
                 ob: array2<Delimiter?>, ghost was: seq<Delimiter>, ghost all: map<nat, Delimiter>,
                 ghost base: nat, ghost j: nat, ghost s: State)
      returns (next: Delimiter?, items': seq<Item>, ghost k: nat)
    requires LoopInv(st, closer, items, stackBottom, ob, was, all, base, j, s) && AtCloser(s) && Find(s, true).Some?
    requires base + Find(s, true).value < |st.delims| && opener == st.delims[base + Find(s, true).value]
    modifies st, st.repr
    ensures st.repr == old(st.repr)
    ensures LoopInv(st, next, items', stackBottom, ob, was, all, base, k, Next(s))
  {
    HeadAligned(st.delims, base, j, s);
    TrimmedKept(was, st.delims, base, all, j, s);
    NextBottoms(s);
    next, items', k := Match(st, opener, closer, items, base, j, s, Find(s, true).value);
  }

  /** The part of a turn after a search that found nothing. */
  method Fail(st: Stack, closer: Delimiter, items: seq<Item>, stackBottom: Delimiter?, ob: array2<Delimiter?>,
              ghost was: seq<Delimiter>, ghost all: map<nat, Delimiter>, ghost base: nat, ghost j: nat, ghost s: State)
      returns (next: Delimiter?, items': seq<Item>, ghost k: nat)
    requires LoopInv(st, closer, items, stackBottom, ob, was, all, base, j, s) && AtCloser(s) && Find(s, true).None?
    modifies st, st.repr, ob
    ensures st.repr == old(st.repr)
    ensures LoopInv(st, next, items', stackBottom, ob, was, all, base, k, Next(s))
  {
    ghost var ds := st.delims;
    CloserFacts(ds, base, j, s);
    StepBack(st, j);
    BeforeKept(was, ds, base, stackBottom);
    RaisedEntry(ds, base, j, s, closer.previous, stackBottom, all);
    RaiseBottom(ob, closer.d, closer.previous, s.bottoms, Delims(s.left), stackBottom, all);
    TrimmedCut(was, ds, base, all, j, j + 1);
    NextBottoms(s);
    next, items', k := NoMatch(st, closer, items, base, j, s);
  }

  /** One turn of the main loop. */
  method Turn(st: Stack, closer: Delimiter, items: seq<Item>, stackBottom: Delimiter?, ob: array2<Delimiter?>,
              ghost was: seq<Delimiter>, ghost all: map<nat, Delimiter>, ghost base: nat, ghost j: nat, ghost s: State)
      returns (next: Delimiter?, items': seq<Item>, ghost k: nat)
    requires LoopInv(st, closer, items, stackBottom, ob, was, all, base, j, s) && s.right != []
    modifies st, st.repr, ob
    ensures st.repr == old(st.repr)
    ensures LoopInv(st, next, items', stackBottom, ob, was, all, base, k, Next(s))
  {
    CloserFacts(st.delims, base, j, s);
    BeforeKept(was, st.delims, base, stackBottom);
    if !closer.d.canClose {
      items', k := items, j + 1;
      next := Pass(st, closer, items, stackBottom, ob, was, all, base, j, s);
    } else {
      var opener, found := Look(st, closer, stackBottom, ob, all, base, j, s);
      if found {
        next, items', k := Succeed(st, opener, closer, items, stackBottom, ob, was, all, base, j, s);
      } else {
        next, items', k := Fail(st, closer, items, stackBottom, ob, was, all, base, j, s);
      }
    }
  }

  lemma TrimmedKept(was: seq<Delimiter>, ds: seq<Delimiter>, base: nat, all: map<nat, Delimiter>, j: nat, s: State)
    requires Trimmed(was, ds, base, all) && Aligned(ds, base, j, s) && AtCloser(s) && Find(s, true).Some?
    requires j < |ds|
    ensures base + Find(s, true).value < j && Trimmed(was, KeptAfter(ds, base, j, s, Find(s, true).value), base, all)
  {
    var i := Find(s, true).value;
    var r := RunIndex(s.left, i);
    var use := Use(s.left[r].left, s.right[0].left);
    TrimmedCut(was, ds, base, all, if s.left[r].left > use then base + i + 1 else base + i,
               if s.right[0].left > use then j else j + 1);
  }

  lemma NextShrinks(s: State)
    requires WfState(s) && s.right != []
    ensures WfState(Next(s)) && Process(Next(s), true) == Process(s, true)
    ensures var t := Next(s);
            Chars(t.left) + Chars(t.right) < Chars(s.left) + Chars(s.right) ||
            (Chars(t.left) + Chars(t.right) <= Chars(s.left) + Chars(s.right) && |t.right| < |s.right|)
  {
    StepShape(s, true);
    SettleFacts(Step(s, true));
  }

  /** Frees the delimiters above place base. */
  method FreeAbove(st: Stack, stackBottom: Delimiter?, ghost base: nat)
    requires st.Linked() && Before(st.delims, base, stackBottom)
    modifies st, st.repr
    ensures st.Linked() && st.repr == old(st.repr)
    ensures st.delims == old(st.delims)[..base] && st.last == stackBottom
  {
    ghost var was := st.delims;
    while st.last != null && st.last != stackBottom
      invariant st.Linked() && st.repr == old(st.repr)
      invariant base <= |st.delims| <= |was| && st.delims == was[..|st.delims|]
      decreases |st.delims|
    {
      ghost var n: nat := |st.delims| - 1;
      Distinct(was);
      st.Remove(st.last, n);
      assert Cut(was[..n + 1], n, n + 1) == was[..n];
    }
    Distinct(was);
  }

  /** Allocates openers_bottom with every entry of * and _ at the stack bottom. */
  method InitBottoms(stackBottom: Delimiter?, ghost all: map<nat, Delimiter>) returns (ob: array2<Delimiter?>)
    ensures fresh(ob) && Prepared(ob) && BottomsMatch(ob, map[], stackBottom, all)
  {
    ob := new Delimiter?[3, 128]((_, _) => null);
    for i := 0 to 3
      invariant forall m | 0 <= m < i :: ob[m, STAR] == stackBottom && ob[m, UNDERSCORE] == stackBottom
    {
      ob[i, STAR] := stackBottom;
      ob[i, UNDERSCORE] := stackBottom;
    }
  }

  /** process_emphasis: resolves the siblings that hold the delimiters above stackBottom, frees those delimiters and
      leaves the list below untouched. */
  method ProcessEmphasis(st: Stack, stackBottom: Delimiter?, siblings: seq<Item>, ghost base: nat)
      returns (nodes: seq<Inline>)
    requires st.Linked() && Before(st.delims, base, stackBottom)
    requires Wf(siblings) && Values(st.delims[base..]) == Delims(siblings)
    modifies st, st.repr
    ensures st.Linked() && st.repr == old(st.repr)
    ensures st.delims == old(st.delims)[..base] && st.last == stackBottom
    ensures nodes == Resolve(siblings)
  {
    ghost var was := st.delims;
    ghost var all := ByPosition(was);
    ByPositionKnows(was);
    var ob := InitBottoms(stackBottom, all);
    var closer := FirstAbove(st, stackBottom, base);
    var items := siblings;
    ghost var (s, j) := (Settle(Start(siblings)), base);
    StartAt(st, closer, siblings, base);
    while closer != null
      invariant st.repr == old(st.repr) && fresh(ob)
      invariant LoopInv(st, closer, items, stackBottom, ob, was, all, base, j, s)
      invariant Process(s, true) == Process(Start(siblings), true)
      decreases Chars(s.left) + Chars(s.right), |s.right|
    {
      HeadAligned(st.delims, base, j, s);
      NextShrinks(s);
      closer, items, j := Turn(st, closer, items, stackBottom, ob, was, all, base, j, s);
      s := Next(s);
    }
    HeadAligned(st.delims, base, j, s);
    BeforeKept(was, st.delims, base, stackBottom);
    Finished(s, items, siblings);
    FreeAbove(st, stackBottom, base);
    nodes := StripAll(items);
  }

  lemma Finished(s: State, items: seq<Item>, siblings: seq<Item>)
    requires Wf(siblings) && WfState(s) && s.right == [] && items == s.left + s.right
    requires Process(s, true) == Process(Start(siblings), true)
    ensures StripAll(items) == Resolve(siblings)
  {
    assert items == s.left == Process(s, true);
  }

  lemma BeforeKept(was: seq<Delimiter>, ds: seq<Delimiter>, base: nat, p: Delimiter?)
    requires base <= |was| && base <= |ds| && ds[..base] == was[..base] && Before(was, base, p)
    ensures Before(ds, base, p)
  {
    if base > 0 {
      assert was[..base][base - 1] == ds[..base][base - 1];
    }
  }

  lemma StartAt(st: Stack, closer: Delimiter?, siblings: seq<Item>, base: nat)
    requires st.Linked() && base <= |st.delims| && Wf(siblings) && Values(st.delims[base..]) == Delims(siblings)
    requires closer == if base < |st.delims| then st.delims[base] else null
    ensures At(st, closer, siblings, base, base, Settle(Start(siblings)))
    ensures Process(Settle(Start(siblings)), true) == Process(Start(siblings), true)
    ensures Settle(Start(siblings)).bottoms == map[]
  {
    SettleFacts(Start(siblings));
    assert Values(st.delims[base..base]) == [];
    assert [] + siblings == siblings;
    Settled(st, closer, base, base, Start(siblings));
  }
}
