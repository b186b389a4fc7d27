/**
 Emphasis resolution on values: process_emphasis and S_insert_emph of inlines.c.

 The sibling list under one parent and the delimiter list above the stack bottom are one sequence of
 items: a text node that a delimiter points at is a Run, the text node of a stacked bracket is an Open,
 every other node is a Node. The delimiter list is then exactly the subsequence of Runs. The class that
 relinks delimiters in place is in DelimiterList.dfy; its methods are proved against the functions of this file.
 */
module Emphasis {

  import opened Common

  // A node that cannot have children is a Leaf carrying the source text it stands for. The source does
  // not store the delimiter character in an emphasis node; the model does, so that the text can be read back.
  datatype Inline =
    | Leaf(src: string)
    | Emph(mark: char, kids: seq<Inline>)
    | Strong(mark: char, kids: seq<Inline>)
    | Link(image: bool, kids: seq<Inline>, tail: string)

  // A delimiter: its position in the input identifies it, the way its address does in the source.
  // The length is the original length of the run and never changes.
  datatype Delim = Delim(pos: nat, ch: char, canOpen: bool, canClose: bool, length: nat)

  datatype Item = Node(inl: Inline) | Run(d: Delim, left: nat) | Open(at: nat, image: bool)

  // The key of openers_bottom: closer length mod 3 and character.
  datatype Class = Class(m: nat, ch: char)

  /** The search walks left over what it has passed; right starts at the closer. A class without an entry
      in bottoms stands at stack_bottom. */
  datatype State = State(left: seq<Item>, right: seq<Item>, bottoms: map<Class, nat>)

  // ---------- reading a tree back as source text ----------

  function Rep(c: char, n: nat): string {
    seq(n, _ => c)
  }

  function Source(n: Inline): string
    decreases n, 0
  {
    match n
    case Leaf(src) => src
    case Emph(c, kids) => [c] + SourceAll(kids) + [c]
    case Strong(c, kids) => [c, c] + SourceAll(kids) + [c, c]
    case Link(image, kids, tail) => BracketText(image) + SourceAll(kids) + tail
  }

  function SourceAll(ns: seq<Inline>): string
    decreases ns, 0
  {
    if ns == [] then "" else Source(ns[0]) + SourceAll(ns[1..])
  }

  function BracketText(image: bool): string {
    if image then "![" else "["
  }

  function Strip(it: Item): Inline {
    match it
    case Node(n) => n
    case Run(d, left) => Leaf(Rep(d.ch, left))
    case Open(_, image) => Leaf(BracketText(image))
  }

  function StripAll(items: seq<Item>): (ns: seq<Inline>)
    ensures |ns| == |items|
  {
    if items == [] then [] else [Strip(items[0])] + StripAll(items[1..])
  }

  function Text(items: seq<Item>): string {
    SourceAll(StripAll(items))
  }

  lemma {:induction false} StripConcat(a: seq<Item>, b: seq<Item>)
    ensures StripAll(a + b) == StripAll(a) + StripAll(b)
  {
    if a == [] {
      assert a + b == b;
    } else {
      assert (a + b)[1..] == a[1..] + b;
      StripConcat(a[1..], b);
    }
  }

  lemma {:induction false} SourceConcat(a: seq<Inline>, b: seq<Inline>)
    ensures SourceAll(a + b) == SourceAll(a) + SourceAll(b)
  {
    if a == [] {
      assert a + b == b;
    } else {
      assert (a + b)[1..] == a[1..] + b;
      SourceConcat(a[1..], b);
    }
  }

  lemma TextConcat(a: seq<Item>, b: seq<Item>)
    ensures Text(a + b) == Text(a) + Text(b)
  {
    StripConcat(a, b);
    SourceConcat(StripAll(a), StripAll(b));
  }

  lemma TextOne(it: Item)
    ensures Text([it]) == Source(Strip(it))
  {
    assert StripAll([it]) == [Strip(it)] + StripAll([]);
    assert SourceAll([Strip(it)]) == Source(Strip(it)) + SourceAll([]);
  }

  // ---------- the delimiter list ----------

  function Delims(items: seq<Item>): seq<Delim> {
    if items == [] then []
    else
      var n := |items| - 1;
      Delims(items[..n]) + if items[n].Run? then [items[n].d] else []
  }

  lemma {:induction false} DelimsConcat(a: seq<Item>, b: seq<Item>)
    ensures Delims(a + b) == Delims(a) + Delims(b)
  {
    if b == [] {
      assert a + b == a;
    } else {
      var n := |b| - 1;
      assert (a + b)[..|a + b| - 1] == a + b[..n];
      assert (a + b)[|a + b| - 1] == b[n];
      DelimsConcat(a, b[..n]);
    }
  }

  // The item that holds the i-th delimiter: following inl_text from the delimiter.
  function RunIndex(items: seq<Item>, i: nat): (r: nat)
    requires i < |Delims(items)|
    ensures r < |items| && items[r].Run? && items[r].d == Delims(items)[i]
    ensures |Delims(items[..r])| == i
  {
    var n := |items| - 1;
    if items[n].Run? && i == |Delims(items)| - 1 then n
    else
      var r := RunIndex(items[..n], i);
      assert items[..n][..r] == items[..r];
      r
  }

  ghost predicate Ordered(ds: seq<Delim>) {
    forall i, j :: 0 <= i < j < |ds| ==> ds[i].pos < ds[j].pos
  }

  predicate WfItem(it: Item) {
    it.Run? ==> 1 <= it.left <= it.d.length && it.d.ch in {'*', '_'}
  }

  predicate Wf(items: seq<Item>) {
    forall it | it in items :: WfItem(it)
  }

  // ---------- the search for an opener ----------

  // Same character, the opener can open, and the rule of three: when either end could play both roles,
  // a sum of lengths divisible by three is refused unless the closer's own length is divisible by three.
  predicate Matches(o: Delim, c: Delim) {
    && o.canOpen
    && o.ch == c.ch
    && (!(c.canOpen || o.canClose) || c.length % 3 == 0 || (o.length + c.length) % 3 != 0)
  }

  function ClassOf(c: Delim): Class {
    Class(c.length % 3, c.ch)
  }

  function BottomOf(bottoms: map<Class, nat>, c: Delim): Option<nat> {
    if ClassOf(c) in bottoms then Some(bottoms[ClassOf(c)]) else None
  }

  /** The backwards walk from the delimiter before the closer: stops at the bottom, at a match, or at the end. */
  function Search(ds: seq<Delim>, bottom: Option<nat>, c: Delim): (r: Option<nat>)
    ensures r.Some? ==> r.value < |ds| && Matches(ds[r.value], c)
  {
    if ds == [] then None
    else
      var n := |ds| - 1;
      if bottom == Some(ds[n].pos) then None
      else if Matches(ds[n], c) then Some(n)
      else Search(ds[..n], bottom, c)
  }

  /** What is found is the nearest match, above the bottom; when nothing is, every match lies at or below the bottom. */
  lemma {:induction false} SearchIsNearest(ds: seq<Delim>, bottom: Option<nat>, c: Delim)
    ensures var r := Search(ds, bottom, c);
            match r
            case Some(k) => Matches(ds[k], c) && forall i | k <= i < |ds| :: bottom != Some(ds[i].pos) && (i > k ==> !Matches(ds[i], c))
            case None => forall i | 0 <= i < |ds| && Matches(ds[i], c) :: exists q | i <= q < |ds| :: bottom == Some(ds[q].pos)
  {
    var n := |ds| - 1;
    if ds != [] && bottom != Some(ds[n].pos) && !Matches(ds[n], c) {
      SearchIsNearest(ds[..n], bottom, c);
      assert forall i | 0 <= i < n :: ds[i] == ds[..n][i];
    }
  }

  function SetBottom(bottoms: map<Class, nat>, c: Delim, ds: seq<Delim>): map<Class, nat> {
    if ds == [] then bottoms - {ClassOf(c)} else bottoms[ClassOf(c) := ds[|ds| - 1].pos]
  }

  // ---------- one turn of the main loop ----------

  function Use(o: nat, c: nat): nat {
    if c >= 2 && o >= 2 then 2 else 1
  }

  function Spent(run: Item, use: nat): seq<Item>
    requires run.Run?
  {
    if run.left > use then [Run(run.d, run.left - use)] else []
  }

  function Wrap(use: nat, mark: char, kids: seq<Inline>): Inline {
    if use == 1 then Emph(mark, kids) else Strong(mark, kids)
  }

  ghost predicate WfState(s: State) {
    Wf(s.left) && Wf(s.right)
  }

  /** What S_insert_emph does for the opener at item r and the closer at the head of right: the items between
      lose their delimiters and become the children of a new node, and used-up runs disappear. */
  function Insert(s: State, r: nat): State
    requires s.right != [] && s.right[0].Run? && r < |s.left| && s.left[r].Run?
  {
    var (o, c) := (s.left[r], s.right[0]);
    var use := Use(o.left, c.left);
    var node := Node(Wrap(use, c.d.ch, StripAll(s.left[r + 1..])));
    State(s.left[..r] + Spent(o, use) + [node], Spent(c, use) + s.right[1..], s.bottoms)
  }

  /** What a failed search does: the bottom of the closer's class rises to the delimiter before it, and a closer
      that cannot open leaves the delimiter list. */
  function GiveUp(s: State): State
    requires s.right != [] && s.right[0].Run?
  {
    var c := s.right[0];
    State(s.left + [if c.d.canOpen then c else Node(Strip(c))], s.right[1..],
          SetBottom(s.bottoms, c.d, Delims(s.left)))
  }

  function Skip(s: State): State
    requires s.right != []
  {
    s.(left := s.left + [s.right[0]], right := s.right[1..])
  }

  predicate AtCloser(s: State) {
    s.right != [] && s.right[0].Run? && s.right[0].d.canClose
  }

  // With pruned the walk stops at openers_bottom; without, it goes all the way to stack_bottom.
  function Find(s: State, pruned: bool): Option<nat>
    requires AtCloser(s)
  {
    Search(Delims(s.left), if pruned then BottomOf(s.bottoms, s.right[0].d) else None, s.right[0].d)
  }

  function Step(s: State, pruned: bool): State
    requires s.right != []
  {
    if !AtCloser(s) then Skip(s)
    else
      match Find(s, pruned)
      case None => GiveUp(s)
      case Some(i) => Insert(s, RunIndex(s.left, i))
  }

  // ---------- termination: characters left in runs, then items ahead ----------

  function Chars(items: seq<Item>): nat {
    if items == [] then 0
    else (if items[0].Run? then items[0].left else 0) + Chars(items[1..])
  }

  lemma {:induction false} CharsConcat(a: seq<Item>, b: seq<Item>)
    ensures Chars(a + b) == Chars(a) + Chars(b)
  {
    if a == [] {
      assert a + b == b;
    } else {
      assert (a + b)[1..] == a[1..] + b;
      CharsConcat(a[1..], b);
    }
  }

  lemma SplitAt(items: seq<Item>, r: nat)
    requires r < |items|
    ensures items == items[..r] + [items[r]] + items[r + 1..]
    ensures Chars(items) == Chars(items[..r]) + Chars([items[r]]) + Chars(items[r + 1..])
    ensures Delims(items) == Delims(items[..r]) + Delims([items[r]]) + Delims(items[r + 1..])
    ensures Text(items) == Text(items[..r]) + Text([items[r]]) + Text(items[r + 1..])
  {
    var (a, b, c) := (items[..r], [items[r]], items[r + 1..]);
    assert items == a + b + c;
    CharsConcat(a + b, c);
    CharsConcat(a, b);
    DelimsConcat(a + b, c);
    DelimsConcat(a, b);
    TextConcat(a + b, c);
    TextConcat(a, b);
  }

  lemma InsertShape(s: State, r: nat)
    requires s.right != [] && s.right[0].Run? && r < |s.left| && s.left[r].Run? && WfState(s)
    ensures WfState(Insert(s, r))
    ensures Chars(Insert(s, r).left) + Chars(Insert(s, r).right) < Chars(s.left) + Chars(s.right)
  {
    var (o, c) := (s.left[r], s.right[0]);
    var use := Use(o.left, c.left);
    var t := Insert(s, r);
    SplitAt(s.left, r);
    SplitAt(s.right, 0);
    var node := t.left[|t.left| - 1];
    CharsConcat(s.left[..r] + Spent(o, use), [node]);
    CharsConcat(s.left[..r], Spent(o, use));
    CharsConcat(Spent(c, use), s.right[1..]);
    assert o in s.left && c in s.right;
    forall it | it in t.left ensures WfItem(it) {
      if it !in Spent(o, use) && it != node {
        assert it in s.left[..r];
      }
    }
  }

  lemma StepShape(s: State, pruned: bool)
    requires s.right != [] && WfState(s)
    ensures WfState(Step(s, pruned))
    ensures var t := Step(s, pruned);
            Chars(t.left) + Chars(t.right) < Chars(s.left) + Chars(s.right) ||
            (Chars(t.left) + Chars(t.right) <= Chars(s.left) + Chars(s.right) && |t.right| < |s.right|)
  {
    SplitAt(s.right, 0);
    assert s.right[..0] == [];
    if AtCloser(s) && Find(s, pruned).Some? {
      InsertShape(s, RunIndex(s.left, Find(s, pruned).value));
    } else {
      var t := Step(s, pruned);
      CharsConcat(s.left, [t.left[|s.left|]]);
      assert s.right[0] in s.right;
    }
  }

  /** The whole main loop, from any state. */
  function Process(s: State, pruned: bool): seq<Item>
    requires WfState(s)
    decreases Chars(s.left) + Chars(s.right), |s.right|
  {
    if s.right == [] then s.left
    else
      StepShape(s, pruned);
      Process(Step(s, pruned), pruned)
  }

  function Start(items: seq<Item>): State {
    State([], items, map[])
  }

  /** process_emphasis on the items above the stack bottom: the main loop, then every delimiter left is freed. */
  function Resolve(items: seq<Item>): seq<Inline>
    requires Wf(items)
  {
    StripAll(Process(Start(items), true))
  }
}
