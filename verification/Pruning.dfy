/** When the whole run with openers_bottom agrees with the run that always walks to stack_bottom. */
module Pruning {
  import opened Common
  import opened Emphasis
  import opened EmphasisTheorems

  // An opener x, then a delimiter y that plays both roles, then a closer z of y's class that cannot open,
  // where the rule of three keeps x from y but not from z.
  ghost predicate Clash(x: Delim, y: Delim, z: Delim) {
    && x.pos < y.pos < z.pos
    && OneSided(x, z) && z.canClose
    && y.canOpen && y.canClose && ClassOf(y) == ClassOf(z)
  }

  // No clash whose closer is of the class.
  ghost predicate ClashFree(ds: seq<Delim>, k: Class) {
    forall x, y, z | x in ds && y in ds && z in ds :: ClassOf(z) == k ==> !Clash(x, y, z)
  }

  // Nothing at or below the live bottom of the class suits any of its closers still ahead.
  ghost predicate BottomsBarren(bottoms: map<Class, nat>, ds: seq<Delim>, ahead: seq<Delim>, k: Class) {
    forall q, i, z | 0 <= i <= q < |ds| && z in ahead && z.canClose && ClassOf(z) == k && BottomOf(bottoms, z) == Some(ds[q].pos) ::
      !Matches(ds[i], z)
  }

  ghost predicate ExactInv(s: State, k: Class) {
    && Inv(s)
    && ClashFree(Delims(s.left) + Delims(s.right), k)
    && BottomsBarren(s.bottoms, Delims(s.left), Delims(s.right), k)
  }

  // The search for a closer of the class finds what the full walk finds.
  predicate ExactFor(s: State, k: Class) {
    AtCloser(s) && ClassOf(s.right[0].d) == k ==> Find(s, true) == Find(s, false)
  }

  lemma ExactStep(s: State, k: Class)
    requires ExactInv(s, k)
    ensures ExactFor(s, k)
  {
    if AtCloser(s) && ClassOf(s.right[0].d) == k {
      var (ds, c) := (Delims(s.left), s.right[0].d);
      DelimsHead(s.right);
      PrunedSearchExact(s);
      forall i | 0 <= i < |ds| ensures OneSided(ds[i], c) ==> Matches(ds[i], c) {
        ProbeIsStrictest(ds[i], c);
      }
      assert !HiddenOpener(ds, BottomOf(s.bottoms, c), c);
    }
  }

  lemma ShrinkClashFree(ds: seq<Delim>, ds': seq<Delim>, k: Class)
    requires ClashFree(ds, k) && forall d | d in ds' :: d in ds
    ensures ClashFree(ds', k)
  {}

  lemma DropBarren(bottoms: map<Class, nat>, ds: seq<Delim>, ahead: seq<Delim>, k: Class, a: nat, b: nat)
    requires BottomsBarren(bottoms, ds, ahead, k) && a <= |ds| && b <= |ahead|
    ensures BottomsBarren(bottoms, ds[..a], ahead[b..], k)
  {}

  lemma MoveBarren(bottoms: map<Class, nat>, ds: seq<Delim>, ahead: seq<Delim>, k: Class)
    requires DelimsInv(bottoms, ds, ahead) && BottomsBarren(bottoms, ds, ahead, k) && ahead != []
    ensures BottomsBarren(bottoms, ds + [ahead[0]], ahead[1..], k)
  {
    assert ahead[0] in ahead;
  }

  // Only a failed search for a closer of the class itself raises its bottom.
  lemma RaiseBarren(bottoms: map<Class, nat>, ds: seq<Delim>, ahead: seq<Delim>, k: Class)
    requires DelimsInv(bottoms, ds, ahead) && BottomsBarren(bottoms, ds, ahead, k) && ahead != [] && ahead[0].canClose
    requires ClashFree(ds + ahead, k)
    requires ClassOf(ahead[0]) == k ==> forall i | 0 <= i < |ds| :: !Matches(ds[i], ahead[0])
    ensures BottomsBarren(SetBottom(bottoms, ahead[0], ds), ds, ahead, k)
  {
    var c := ahead[0];
    var bs := SetBottom(bottoms, c, ds);
    forall q, i, z | 0 <= i <= q < |ds| && z in ahead && z.canClose && ClassOf(z) == k && BottomOf(bs, z) == Some(ds[q].pos)
      ensures !Matches(ds[i], z)
    {
      if ClassOf(c) == k && z != c && Matches(ds[i], z) {
        ProbeIsStrictest(ds[i], z);
        ProbeIsStrictest(ds[i], c);
        assert ds[i] in ds + ahead && c in ds + ahead && z in ds + ahead;
        assert Clash(ds[i], c, z);
        assert false;
      }
    }
  }

  lemma SkipKeeps(s: State, k: Class)
    requires ExactInv(s, k) && s.right != [] && !AtCloser(s)
    ensures BottomsBarren(s.bottoms, Delims(Skip(s).left), Delims(Skip(s).right), k)
    ensures forall d | d in Delims(Skip(s).left) + Delims(Skip(s).right) :: d in Delims(s.left) + Delims(s.right)
  {
    var (ds, ahead) := (Delims(s.left), Delims(s.right));
    DelimsHead(s.right);
    DelimsPush(s.left, s.right[0]);
    if s.right[0].Run? {
      MoveBarren(s.bottoms, ds, ahead, k);
      assert Delims(s.right[1..]) == ahead[1..];
    } else {
      assert ds + [] == ds && [] + Delims(s.right[1..]) == ahead;
    }
  }

  lemma RaiseKeepsBarren(s: State, k: Class)
    requires ExactInv(s, k) && AtCloser(s) && Find(s, true).None? && Delims(s.right) != [] && Delims(s.right)[0] == s.right[0].d
    ensures BottomsBarren(GiveUp(s).bottoms, Delims(s.left), Delims(s.right), k)
  {
    var (ds, ahead) := (Delims(s.left), Delims(s.right));
    if ClassOf(ahead[0]) == k {
      ExactStep(s, k);
      SearchNone(ds, None, ahead[0]);
    }
    RaiseBarren(s.bottoms, ds, ahead, k);
  }

  lemma GiveUpKeeps(s: State, k: Class)
    requires ExactInv(s, k) && AtCloser(s) && Find(s, true).None?
    ensures var t := GiveUp(s);
            && BottomsBarren(t.bottoms, Delims(t.left), Delims(t.right), k)
            && forall d | d in Delims(t.left) + Delims(t.right) :: d in Delims(s.left) + Delims(s.right)
  {
    var (ds, ahead, t) := (Delims(s.left), Delims(s.right), GiveUp(s));
    DelimsHead(s.right);
    RaiseKeepsBarren(s, k);
    DelimsPush(s.left, t.left[|s.left|]);
    RaiseKeeps(s.bottoms, ds, ahead);
    assert Delims(t.right) == ahead[1..];
    if s.right[0].d.canOpen {
      MoveBarren(t.bottoms, ds, ahead, k);
    } else {
      DropBarren(t.bottoms, ds, ahead, k, |ds|, 1);
      assert ds[..|ds|] == ds && Delims(t.left) == ds;
    }
  }

  lemma InsertKeeps(s: State, k: Class)
    requires ExactInv(s, k) && AtCloser(s) && Find(s, true).Some?
    ensures var t := Step(s, true);
            && BottomsBarren(t.bottoms, Delims(t.left), Delims(t.right), k)
            && forall d | d in Delims(t.left) + Delims(t.right) :: d in Delims(s.left) + Delims(s.right)
  {
    var (ds, ahead, t) := (Delims(s.left), Delims(s.right), Step(s, true));
    var i := Find(s, true).value;
    InsertDelimsLeft(s, i, RunIndex(s.left, i));
    InsertDelimsRight(s, RunIndex(s.left, i));
    var a := if Delims(t.left) == ds[..i] then i else i + 1;
    var b := if Delims(t.right) == ahead then 0 else 1;
    assert ahead[0..] == ahead;
    DropBarren(s.bottoms, ds, ahead, k, a, b);
  }

  lemma ExactKept(s: State, k: Class)
    requires ExactInv(s, k) && s.right != []
    ensures ExactInv(Step(s, true), k)
  {
    StepInv(s);
    if !AtCloser(s) {
      SkipKeeps(s, k);
    } else if Find(s, true).None? {
      GiveUpKeeps(s, k);
    } else {
      InsertKeeps(s, k);
    }
    var t := Step(s, true);
    ShrinkClashFree(Delims(s.left) + Delims(s.right), Delims(t.left) + Delims(t.right), k);
  }

  lemma ExactTurn(s: State, k: Class)
    requires ExactInv(s, k)
    ensures ExactInv(EmphasisTheorems.Turn(s), k)
  {
    if s.right != [] {
      ExactKept(s, k);
    }
  }

  lemma {:induction false} ExactAfter(s: State, n: nat, k: Class)
    requires ExactInv(s, k)
    ensures ExactInv(After(s, n), k)
    decreases n
  {
    if n != 0 {
      ExactAfter(s, n - 1, k);
      ExactTurn(After(s, n - 1), k);
    }
  }

  /** As long as no delimiter of the class that plays both roles can raise its bottom past a one-sided opener of a later
      closer, every search for a closer of the class is exact, whatever happens to the other classes. */
  lemma PruningExactForClass(items: seq<Item>, k: Class, n: nat)
    requires Wf(items) && Ordered(Delims(items)) && ClashFree(Delims(items), k)
    ensures ExactFor(After(Start(items), n), k)
  {
    StartInv(items);
    assert Delims([]) + Delims(items) == Delims(items);
    ExactAfter(Start(items), n, k);
    ExactStep(After(Start(items), n), k);
  }

  lemma {:induction false} PrunedRunExact(s: State)
    requires forall k :: ExactInv(s, k)
    ensures WfState(s) && Process(s, true) == Process(s, false)
    decreases Chars(s.left) + Chars(s.right), |s.right|
  {
    assert ExactInv(s, Class(0, '*'));
    if s.right != [] {
      StepShape(s, true);
      if AtCloser(s) {
        ExactStep(s, ClassOf(s.right[0].d));
      }
      forall k ensures ExactInv(Step(s, true), k) {
        ExactKept(s, k);
      }
      PrunedRunExact(Step(s, true));
    }
  }

  /** Without a clash in the delimiter list, pruning changes nothing: process_emphasis builds the tree of the
      unpruned algorithm. A list where no delimiter plays both roles, for one, has no clash. */
  lemma PruningHarmless(items: seq<Item>)
    requires Wf(items) && Ordered(Delims(items)) && forall k :: ClashFree(Delims(items), k)
    ensures Process(Start(items), true) == Process(Start(items), false)
  {
    StartInv(items);
    assert Delims([]) + Delims(items) == Delims(items);
    PrunedRunExact(Start(items));
  }

  // ---------- a clash where pruning loses an emphasis: the text *a**b**c** ----------

  const O := Delim(0, '*', true, false, 1)
  const X := Delim(2, '*', true, true, 2)
  const Y := Delim(5, '*', true, true, 2)
  const Z := Delim(8, '*', false, true, 2)
  const A := Node(Leaf("a"))
  const B := Node(Leaf("b"))
  const C := Node(Leaf("c"))
  const BOLD := Node(Strong('*', [Leaf("b")]))
  const K := Class(2, '*')

  // The runs of * as the loop meets them, and the states before the second and the last closer.
  const TAIL := [Run(X, 2), B, Run(Y, 2), C, Run(Z, 2)]
  const LOSER := [Run(O, 1), A] + TAIL
  const MID := State([Run(O, 1), A, Run(X, 2), B], [Run(Y, 2), C, Run(Z, 2)], map[K := 0])
  const LAST := State([Run(O, 1), A, BOLD, C], [Run(Z, 2)], map[K := 0])

  lemma OneRun(rest: seq<Item>)
    requires forall it | it in rest :: !it.Run?
    ensures Delims([Run(O, 1)] + rest) == [O]
  {
    if rest == [] {
      assert [Run(O, 1)] + rest == [] + [Run(O, 1)];
      DelimsPush([], Run(O, 1));
    } else {
      var n := |rest| - 1;
      OneRun(rest[..n]);
      assert [Run(O, 1)] + rest == ([Run(O, 1)] + rest[..n]) + [rest[n]];
      DelimsPush([Run(O, 1)] + rest[..n], rest[n]);
    }
  }

  // The first closer may open too, so the rule of three keeps the opener from it, and the bottom rises to the opener.
  lemma FirstCloser(pruned: bool)
    ensures Step(State([Run(O, 1), A], TAIL, map[]), pruned) == State([Run(O, 1), A, Run(X, 2)], TAIL[1..], map[K := 0])
  {
    assert [Run(O, 1), A] == [Run(O, 1)] + [A];
    OneRun([A]);
    assert !Matches(O, X);
    assert Search([O], None, X) == Search([], None, X) by { assert [O][..0] == []; }
    assert map[][K := 0] == map[K := 0];
  }

  lemma MidDelims()
    ensures Delims(MID.left) == [O, X] && RunIndex(MID.left, 1) == 2
  {
    assert MID.left == ([Run(O, 1), A] + [Run(X, 2)]) + [B];
    assert [Run(O, 1), A] == [Run(O, 1)] + [A];
    OneRun([A]);
    DelimsPush([Run(O, 1), A], Run(X, 2));
    DelimsPush([Run(O, 1), A] + [Run(X, 2)], B);
    assert MID.left[..3] == [Run(O, 1), A] + [Run(X, 2)];
  }

  // The second closer uses up the first one as its opener.
  lemma SecondCloser(pruned: bool)
    ensures Step(MID, pruned) == State([Run(O, 1), A, BOLD], [C, Run(Z, 2)], map[K := 0])
  {
    MidDelims();
    assert Matches(X, Y);
    assert Find(MID, pruned) == Some(1);
    assert MID.left[3..] == [B] && StripAll([B]) == [Leaf("b")] + StripAll([]) == [Leaf("b")];
    assert MID.left[..2] + [] + [BOLD] == [Run(O, 1), A, BOLD];
    assert [] + MID.right[1..] == [C, Run(Z, 2)];
    assert Spent(Run(X, 2), 2) == [] == Spent(Run(Y, 2), 2);
    assert Insert(MID, 2) == State([Run(O, 1), A, BOLD], [C, Run(Z, 2)], map[K := 0]);
  }

  lemma LastDelims()
    ensures Delims(LAST.left) == [O] && RunIndex(LAST.left, 0) == 0
  {
    assert LAST.left == [Run(O, 1)] + [A, BOLD, C];
    OneRun([A, BOLD, C]);
  }

  // The last closer suits the opener, but the walk stops at the bottom.
  lemma LastCloser()
    ensures Matches(O, Z) && Find(LAST, false) == Some(0) && Find(LAST, true) == None
  {
    LastDelims();
  }

  lemma Turn(s: State, t: State, pruned: bool)
    requires WfState(s) && s.right != [] && Step(s, pruned) == t
    ensures WfState(t) && Process(s, pruned) == Process(t, pruned)
  {
    StepShape(s, pruned);
  }

  lemma ToFirst(pruned: bool)
    ensures Process(Start(LOSER), pruned) == Process(State([Run(O, 1), A], TAIL, map[]), pruned)
  {
    var s1 := State([Run(O, 1)], [A] + TAIL, map[]);
    assert [] + [Run(O, 1)] == [Run(O, 1)];
    assert LOSER[1..] == [A] + TAIL && ([A] + TAIL)[1..] == TAIL;
    Turn(Start(LOSER), s1, pruned);
    assert [Run(O, 1)] + [A] == [Run(O, 1), A];
    Turn(s1, State([Run(O, 1), A], TAIL, map[]), pruned);
  }

  lemma ToMid(pruned: bool)
    ensures Process(State([Run(O, 1), A], TAIL, map[]), pruned) == Process(MID, pruned)
  {
    var s3 := State([Run(O, 1), A, Run(X, 2)], TAIL[1..], map[K := 0]);
    FirstCloser(pruned);
    Turn(State([Run(O, 1), A], TAIL, map[]), s3, pruned);
    assert [Run(O, 1), A, Run(X, 2)] + [B] == MID.left;
    assert TAIL[1..][1..] == MID.right;
    Turn(s3, MID, pruned);
  }

  lemma ToLast(pruned: bool)
    ensures Process(Start(LOSER), pruned) == Process(LAST, pruned)
  {
    ToFirst(pruned);
    ToMid(pruned);
    MidToLast(pruned);
  }

  lemma MidToLast(pruned: bool)
    ensures Process(MID, pruned) == Process(LAST, pruned)
  {
    SecondCloser(pruned);
    var s5 := State([Run(O, 1), A, BOLD], [C, Run(Z, 2)], map[K := 0]);
    Turn(MID, s5, pruned);
    assert [Run(O, 1), A, BOLD] + [C] == LAST.left;
    Turn(s5, LAST, pruned);
  }

  lemma PrunedEnd()
    ensures Process(LAST, true) == [Run(O, 1), A, BOLD, C, Node(Leaf(Rep('*', 2)))]
  {
    LastCloser();
    var t := GiveUp(LAST);
    Turn(LAST, t, true);
    assert t.left == [Run(O, 1), A, BOLD, C, Node(Leaf(Rep('*', 2)))];
  }

  const WHOLE := Emph('*', [Leaf("a"), Strong('*', [Leaf("b")]), Leaf("c")])

  lemma FullInner()
    ensures StripAll(LAST.left[1..]) == WHOLE.kids
  {
    assert LAST.left[1..] == [A] + ([BOLD] + [C]);
    StripConcat([A], [BOLD] + [C]);
    StripConcat([BOLD], [C]);
    assert StripAll([A]) == [Leaf("a")] + StripAll([]);
    assert StripAll([BOLD]) == [BOLD.inl] + StripAll([]);
    assert StripAll([C]) == [Leaf("c")] + StripAll([]);
  }

  lemma FullInsert()
    ensures Step(LAST, false) == State([Node(WHOLE)], [Run(Z, 1)], map[K := 0])
  {
    LastCloser();
    LastDelims();
    FullInner();
    assert Spent(Run(O, 1), 1) == [];
    assert LAST.left[..0] + [] + [Node(WHOLE)] == [Node(WHOLE)];
    assert Spent(Run(Z, 2), 1) + LAST.right[1..] == [Run(Z, 1)];
  }

  lemma FullEnd()
    ensures Process(LAST, false) == [Node(WHOLE), Node(Leaf(Rep('*', 1)))]
  {
    FullInsert();
    var s1 := State([Node(WHOLE)], [Run(Z, 1)], map[K := 0]);
    Turn(LAST, s1, false);
    DelimsOne(Node(WHOLE));
    var t := GiveUp(s1);
    Turn(s1, t, false);
    assert t.left == [Node(WHOLE), Node(Leaf(Rep('*', 1)))];
  }

  lemma PrunedRun()
    ensures Process(Start(LOSER), true) == [Run(O, 1), A, BOLD, C, Node(Leaf(Rep('*', 2)))]
  {
    ToLast(true);
    PrunedEnd();
  }

  lemma FullRun()
    ensures Process(Start(LOSER), false) == [Node(WHOLE), Node(Leaf(Rep('*', 1)))]
  {
    ToLast(false);
    FullEnd();
  }

  /** On the delimiters of *a**b**c** the pruned run leaves the outer * as text, and the full walk pairs it. */
  lemma PruningLosesEmphasis()
    ensures Process(Start(LOSER), true) == [Run(O, 1), A, BOLD, C, Node(Leaf(Rep('*', 2)))]
    ensures Process(Start(LOSER), false) == [Node(WHOLE), Node(Leaf(Rep('*', 1)))]
  {
    PrunedRun();
    FullRun();
  }
}
