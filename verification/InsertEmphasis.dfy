/** S_insert_emph and the search for an opener over the linked delimiter list, against the functions of Emphasis. */
module InsertEmphasis {
  import opened Common
  import opened Emphasis
  import opened EmphasisTheorems
  import opened DelimiterList

  // ---------- facts about values ----------

  // The text node a delimiter points at: the one item that is its run.
  function Locate(items: seq<Item>, d: Delim): (r: nat)
    ensures r <= |items|
    ensures r < |items| ==> items[r].Run? && items[r].d == d
    ensures forall i | 0 <= i < r :: !(items[i].Run? && items[i].d == d)
  {
    if items == [] || (items[0].Run? && items[0].d == d) then 0
    else
      var r := Locate(items[1..], d);
      assert forall i | 1 <= i < r + 1 :: items[i] == items[1..][i - 1];
      r + 1
  }

  lemma {:induction false} RunInDelims(items: seq<Item>, r: nat)
    requires r < |items| && items[r].Run?
    ensures items[r].d in Delims(items)
  {
    var n := |items| - 1;
    if r < n {
      RunInDelims(items[..n], r);
    }
  }

  lemma {:induction false} RunsOrdered(items: seq<Item>, q: nat, r: nat)
    requires q < r < |items| && items[q].Run? && items[r].Run? && Ordered(Delims(items))
    ensures items[q].d.pos < items[r].d.pos
  {
    var n := |items| - 1;
    var (ds, w) := (Delims(items[..n]), Delims(items));
    assert ds == w[..|ds|];
    if r == n {
      RunInDelims(items[..n], q);
      assert items[q].d in ds && w[|w| - 1] == items[r].d;
    } else {
      forall i, j | 0 <= i < j < |ds| ensures ds[i].pos < ds[j].pos {
        assert w[i].pos < w[j].pos;
      }
      RunsOrdered(items[..n], q, r);
    }
  }

  lemma LocateIs(items: seq<Item>, r: nat)
    requires r < |items| && items[r].Run? && Ordered(Delims(items))
    ensures Locate(items, items[r].d) == r
  {
    var q := Locate(items, items[r].d);
    if q < r {
      RunsOrdered(items, q, r);
    }
  }

  // Passing over items without a delimiter, as following the next pointer does.
  function Settle(s: State): State
    decreases |s.right|
  {
    if s.right == [] || s.right[0].Run? then s else Settle(Skip(s))
  }

  lemma {:induction false} SettleFacts(s: State)
    requires WfState(s)
    ensures var t := Settle(s);
            && WfState(t) && t.bottoms == s.bottoms
            && (t.right == [] || t.right[0].Run?)
            && t.left + t.right == s.left + s.right
            && Delims(t.left) == Delims(s.left) && Delims(t.right) == Delims(s.right)
            && Chars(t.left) + Chars(t.right) <= Chars(s.left) + Chars(s.right) && |t.right| <= |s.right|
            && Process(t, true) == Process(s, true)
    decreases |s.right|
  {
    if s.right != [] && !s.right[0].Run? {
      StepShape(s, true);
      DelimsHead(s.right);
      DelimsPush(s.left, s.right[0]);
      CharsConcat(s.left, [s.right[0]]);
      assert Skip(s).left + Skip(s).right == s.left + s.right;
      SettleFacts(Skip(s));
      assert Delims(s.left) + [] == Delims(s.left) && [] + Delims(s.right[1..]) == Delims(s.right[1..]);
    }
  }

  // ---------- the search for an opener, along the previous pointers ----------

  ghost predicate Before(ds: seq<Delimiter>, m: nat, p: Delimiter?) {
    m <= |ds| && p == if m == 0 then null else ds[m - 1]
  }

  // The pointer comparison of the walk agrees with the comparison of positions.
  ghost predicate Stops(delim: Delimiter, ob: Delimiter?, bottom: Option<nat>) {
    delim == ob <==> bottom == Some(delim.d.pos)
  }

  // The walk has come to the delimiter before place m, or to the stack bottom.
  ghost predicate Reached(ds: seq<Delimiter>, base: nat, m: nat, opener: Delimiter?, stackBottom: Delimiter?) {
    && base <= m <= |ds|
    && Before(ds, m, opener) && Before(ds, base, stackBottom)
  }

  lemma ReachedBottom(ds: seq<Delimiter>, base: nat, m: nat, opener: Delimiter?, stackBottom: Delimiter?)
    requires Reached(ds, base, m, opener, stackBottom) && Sorted(ds)
    ensures opener == null || opener == stackBottom <==> m == base
  {
    if m > base > 0 {
      assert PosAt(ds, base - 1) < PosAt(ds, m - 1);
    }
  }

  lemma StepBack(st: Stack, m: nat)
    requires st.Linked() && m < |st.delims|
    ensures Before(st.delims, m, st.delims[m].previous)
    ensures st.delims[m].next == if m == |st.delims| - 1 then null else st.delims[m + 1]
  {}

  // Nothing from place m up to the closer at place j stopped the walk.
  ghost predicate Passed(ds: seq<Delimiter>, m: nat, j: nat, ob: Delimiter?, c: Delim)
    requires j <= |ds|
  {
    forall t | m <= t < j :: ds[t] != ob && !Matches(ds[t].d, c)
  }

  lemma {:induction false} WalkResult(ds: seq<Delimiter>, base: nat, m: nat, j: nat, ob: Delimiter?, bottom: Option<nat>, c: Delim)
    requires base <= m <= j <= |ds| && Passed(ds, m, j, ob, c)
    requires forall t | base <= t < j :: Stops(ds[t], ob, bottom)
    ensures m > base && ds[m - 1] != ob && Matches(ds[m - 1].d, c) ==>
              Search(Values(ds[base..j]), bottom, c) == Some(m - 1 - base)
    ensures m == base || ds[m - 1] == ob ==> Search(Values(ds[base..j]), bottom, c) == None
    decreases j - m
  {
    if j > base {
      assert Stops(ds[j - 1], ob, bottom);
      assert Values(ds[base..j])[..j - 1 - base] == Values(ds[base..j - 1]);
      if m < j {
        WalkResult(ds, base, m, j - 1, ob, bottom, c);
      }
    }
  }

  /** The inner loop: walks back from the closer at place j to the first delimiter that matches. Place base is the
      first delimiter above the stack bottom, ob the openers_bottom entry of the closer's class. */
  method WalkBack(st: Stack, closer: Delimiter, stackBottom: Delimiter?, ob: Delimiter?, ghost base: nat, ghost j: nat)
      returns (opener: Delimiter?, found: bool, ghost m: nat)
    requires st.Linked() && base <= j < |st.delims| && closer == st.delims[j]
    requires Before(st.delims, base, stackBottom)
    ensures base <= m <= j && Passed(st.delims, m, j, ob, closer.d)
    ensures found ==> m > base && opener == st.delims[m - 1] && opener != ob && Matches(opener.d, closer.d)
    ensures !found ==> m == base || st.delims[m - 1] == ob
  {
    ghost var ds := st.delims;
    opener := closer.previous;
    found := false;
    m := j;
    StepBack(st, j);
    while opener != null && opener != stackBottom && opener != ob
      invariant Reached(ds, base, m, opener, stackBottom) && m <= j
      invariant Passed(ds, m, j, ob, closer.d)
      invariant !found
      decreases m
    {
      ReachedBottom(ds, base, m, opener, stackBottom);
      if Matches(opener.d, closer.d) {
        found := true;
        break;
      }
      StepBack(st, m - 1);
      opener := opener.previous;
      m := m - 1;
    }
    ReachedBottom(ds, base, m, opener, stackBottom);
  }

  /** The search of the main loop, against the search on values. */
  method FindOpener(st: Stack, closer: Delimiter, stackBottom: Delimiter?, ob: Delimiter?,
                    ghost base: nat, ghost j: nat, ghost bottom: Option<nat>)
      returns (opener: Delimiter?, found: bool)
    requires st.Linked() && base <= j < |st.delims| && closer == st.delims[j]
    requires Before(st.delims, base, stackBottom)
    requires forall t | base <= t < j :: Stops(st.delims[t], ob, bottom)
    ensures var r := Search(Values(st.delims[base..j]), bottom, closer.d);
            && found == r.Some?
            && (found ==> opener == st.delims[base + r.value])
  {
    ghost var m;
    opener, found, m := WalkBack(st, closer, stackBottom, ob, base, j);
    WalkResult(st.delims, base, m, j, ob, bottom, closer.d);
  }

  // ---------- S_insert_emph ----------

  // Removes the delimiter at place k and returns the one before it.
  method RemoveBackwards(st: Stack, delim: Delimiter, ghost k: nat) returns (previous: Delimiter?)
    requires st.Linked() && k < |st.delims| && delim == st.delims[k]
    modifies st, st.repr
    ensures st.Linked() && st.repr == old(st.repr)
    ensures st.delims == Cut(old(st.delims), k, k + 1)
    ensures Before(old(st.delims), k, previous)
  {
    StepBack(st, k);
    previous := delim.previous;
    st.Remove(delim, k);
  }

  lemma CutPlaces(ds: seq<Delimiter>, k: nat, j: nat)
    requires 0 < k <= j <= |ds|
    ensures |Cut(ds, k, j)| == |ds| - (j - k)
    ensures Cut(ds, k, j)[k - 1] == ds[k - 1]
    ensures k >= 2 ==> Cut(ds, k, j)[k - 2] == ds[k - 2]
  {}

  /** Frees the delimiters strictly between the opener at place i and the closer at place j. */
  method FreeBetween(st: Stack, opener: Delimiter, closer: Delimiter, ghost i: nat, ghost j: nat)
    requires st.Linked() && i < j < |st.delims| && opener == st.delims[i] && closer == st.delims[j]
    modifies st, st.repr
    ensures st.Linked() && st.repr == old(st.repr)
    ensures st.delims == Cut(old(st.delims), i + 1, j)
  {
    ghost var was := st.delims;
    StepBack(st, j);
    var delim := closer.previous;
    ghost var k: nat := j;
    CutNothing(was, j);
    while delim != null && delim != opener
      invariant i < k <= j && st.Linked() && st.repr == old(st.repr)
      invariant st.delims == Cut(was, k, j)
      invariant Before(was, k, delim)
      decreases k
    {
      StillAfter(was, i, k, delim);
      CutPlaces(was, k, j);
      CutTwice(was, k - 1, k, j);
      delim := RemoveBackwards(st, delim, k - 1);
      k := k - 1;
    }
    StillAfter(was, i, k, delim);
  }

  lemma CutNothing(ds: seq<Delimiter>, j: nat)
    requires j <= |ds|
    ensures Cut(ds, j, j) == ds
  {}

  // The walk back from place k has reached the opener at place i exactly when it is next to it.
  lemma StillAfter(ds: seq<Delimiter>, i: nat, k: nat, delim: Delimiter?)
    requires Sorted(ds) && i < k && Before(ds, k, delim)
    ensures delim != null && (delim == ds[i] <==> k == i + 1)
  {
    if i < k - 1 {
      assert PosAt(ds, i) < PosAt(ds, k - 1);
    }
  }

  ghost predicate CloserAt(s: State, r: nat, items: seq<Item>, o: Delim, c: Delim) {
    && WfState(s) && items == s.left + s.right && Ordered(Delims(items))
    && s.right != [] && s.right[0].Run? && s.right[0].d == c
    && r < |s.left| && s.left[r].Run? && s.left[r].d == o
  }

  lemma Located(s: State, r: nat, items: seq<Item>, o: Delim, c: Delim)
    requires CloserAt(s, r, items, o, c)
    ensures Locate(items, o) == r && Locate(items, c) == |s.left|
    ensures items[r] == s.left[r] && items[|s.left|] == s.right[0]
    ensures items[r].left >= 1 && items[|s.left|].left >= 1
  {
    assert items[r] == s.left[r] && items[|s.left|] == s.right[0];
    LocateIs(items, r);
    LocateIs(items, |s.left|);
    assert WfItem(s.left[r]) && WfItem(s.right[0]);
  }

  lemma SplicedIsInserted(s: State, r: nat, items: seq<Item>)
    requires items == s.left + s.right && s.right != [] && s.right[0].Run? && r < |s.left| && s.left[r].Run?
    ensures var (o, c) := (s.left[r], s.right[0]);
            var use := Use(o.left, c.left);
            Insert(s, r).left + Insert(s, r).right ==
              items[..r] + Spent(o, use) + [Node(Wrap(use, c.d.ch, StripAll(items[r + 1..|s.left|])))]
              + Spent(c, use) + items[|s.left| + 1..]
  {
    assert items[r + 1..|s.left|] == s.left[r + 1..];
    assert items[..r] == s.left[..r];
    assert items[|s.left| + 1..] == s.right[1..];
  }

  // The list once the opener at place i and the closer after it lost the runs they used up.
  function Kept(ds: seq<Delimiter>, i: nat, j: nat, o: bool, c: bool): seq<Delimiter>
    requires i < j < |ds|
  {
    Cut(ds, if o then i + 1 else i, if c then j else j + 1)
  }

  /** The sibling part of S_insert_emph: both text nodes lose the characters used, the nodes between move under a new
      node, and an empty text node is freed. */
  method SpliceEmph(items: seq<Item>, opener: Delim, closer: Delim, ghost s: State, ghost r: nat)
      returns (spliced: seq<Item>, openerChars: nat, closerChars: nat)
    requires CloserAt(s, r, items, opener, closer)
    ensures spliced == Insert(s, r).left + Insert(s, r).right
    ensures var use := Use(s.left[r].left, s.right[0].left);
            openerChars == s.left[r].left - use && closerChars == s.right[0].left - use
  {
    Located(s, r, items, opener, closer);
    SplicedIsInserted(s, r, items);
    var (a, b) := (Locate(items, opener), Locate(items, closer));
    openerChars, closerChars := items[a].left, items[b].left;
    var use := if closerChars >= 2 && openerChars >= 2 then 2 else 1;
    openerChars, closerChars := openerChars - use, closerChars - use;
    var emph := Wrap(use, closer.ch, StripAll(items[a + 1..b]));
    spliced := items[..a] + Spent(items[a], use) + [Node(emph)] + Spent(items[b], use) + items[b + 1..];
  }

  /** S_insert_emph: the delimiters between opener and closer are freed, the siblings are spliced, and a delimiter
      with no characters left goes. Returns the closer to go on with. */
  method InsertEmph(st: Stack, opener: Delimiter, closer: Delimiter, items: seq<Item>,
                    ghost i: nat, ghost j: nat, ghost s: State, ghost r: nat)
      returns (spliced: seq<Item>, next: Delimiter?)
    requires st.Linked() && i < j < |st.delims| && opener == st.delims[i] && closer == st.delims[j]
    requires CloserAt(s, r, items, opener.d, closer.d)
    modifies st, st.repr
    ensures st.Linked() && st.repr == old(st.repr)
    ensures spliced == Insert(s, r).left + Insert(s, r).right
    ensures var use := Use(s.left[r].left, s.right[0].left);
            var (o, c) := (s.left[r].left > use, s.right[0].left > use);
            && st.delims == Kept(old(st.delims), i, j, o, c)
            && next == if c then closer else if j + 1 < |old(st.delims)| then old(st.delims)[j + 1] else null
  {
    var openerChars, closerChars;
    spliced, openerChars, closerChars := SpliceEmph(items, opener.d, closer.d, s, r);
    ghost var was := st.delims;
    FreeBetween(st, opener, closer, i, j);
    KeptAfterCut(was, i, j, openerChars != 0, closerChars != 0);
    next := DropUsedUp(st, opener, closer, openerChars == 0, closerChars == 0, i);
  }

  lemma KeptAfterCut(ds: seq<Delimiter>, i: nat, j: nat, o: bool, c: bool)
    requires i < j < |ds|
    ensures |Cut(ds, i + 1, j)| == |ds| - (j - i - 1)
    ensures Kept(Cut(ds, i + 1, j), i, i + 1, o, c) == Kept(ds, i, j, o, c)
    ensures Cut(ds, i + 1, j)[i] == ds[i] && Cut(ds, i + 1, j)[i + 1] == ds[j]
    ensures j + 1 < |ds| ==> Cut(ds, i + 1, j)[i + 2] == ds[j + 1]
  {}

  /** Removes the opener at place i and the closer behind it from the list where they are used up. */
  method DropUsedUp(st: Stack, opener: Delimiter, closer: Delimiter, dropOpener: bool, dropCloser: bool, ghost i: nat)
      returns (next: Delimiter?)
    requires st.Linked() && i + 1 < |st.delims| && opener == st.delims[i] && closer == st.delims[i + 1]
    modifies st, st.repr
    ensures st.Linked() && st.repr == old(st.repr)
    ensures st.delims == Kept(old(st.delims), i, i + 1, !dropOpener, !dropCloser)
    ensures next == if !dropCloser then closer else if i + 2 < |old(st.delims)| then old(st.delims)[i + 2] else null
  {
    ghost var was := st.delims;
    next := closer;
    ghost var k := if dropOpener then i else i + 1;
    CutTwice(was, i, i + 1, i + 2);
    assert Cut(was, i + 1, i + 1) == was;
    if dropOpener {
      st.Remove(opener, i);
    }
    if dropCloser {
      StepBack(st, k);
      var tmp := closer.next;
      st.Remove(closer, k);
      next := tmp;
    }
  }
}
