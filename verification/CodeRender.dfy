/** The code span case of the CommonMark renderer, commonmark.c. */
module CodeRender {
  import opened CodeSpans
  import opened CodeText

  // The runs that ended before position i.
  ghost predicate Ended(code: string, m: int, i: int) {
    exists a :: IsRun(code, 0, a, m) && a + m < i
  }

  // The run of current backticks that reaches up to i.
  ghost predicate Reaches(code: string, current: int, i: int) {
    && 0 <= current <= i
    && (forall j | i - current <= j < i :: Tick(code, j))
    && !Tick(code, i - current - 1)
  }

  // At a position without a backtick, the run that reaches it is the only one that ends there.
  lemma EndedNext(code: string, current: int, i: nat, m: int)
    requires Reaches(code, current, i) && !Tick(code, i) && i <= |code|
    ensures Ended(code, m, i + 1) <==> Ended(code, m, i) || (m == current && current > 0)
  {
    if current > 0 {
      assert Tick(code, i - 1) && IsRun(code, 0, i - current, current);
    }
    forall a | IsRun(code, 0, a, m) && a + m == i ensures m == current > 0 {
      var (t0, t1, t2, t3) := (Tick(code, i - 1), Tick(code, a - 1), Tick(code, i - current - 1), Tick(code, a));
    }
  }

  lemma EndedSame(code: string, i: nat, m: int)
    requires Tick(code, i)
    ensures Ended(code, m, i + 1) <==> Ended(code, m, i)
  {}

  /** shortest_unused_backtick_sequence: the shortest length that is no run of the code, or 32. The bit array of the
      source is an array of 32 flags. */
  method ShortestUnused(code: string) returns (k: nat)
    ensures Shortest(code, k)
  {
    var used := new bool[32](m => m == 0);
    var current, i := 0, 0;
    while i <= |code|
      invariant i <= |code| + 1 && (i <= |code| ==> Reaches(code, current, i))
      invariant used.Length == 32 && used[0]
      invariant forall m | 1 <= m < 32 :: used[m] <==> Ended(code, m, i)
    {
      if Tick(code, i) {
        forall m ensures Ended(code, m, i + 1) <==> Ended(code, m, i) {
          EndedSame(code, i, m);
        }
        current := current + 1;
      } else {
        forall m ensures Ended(code, m, i + 1) <==> Ended(code, m, i) || (m == current && current > 0) {
          EndedNext(code, current, i, m);
        }
        ghost var (was, c) := (used[..], current);
        if current > 0 && current < 32 {
          used[current] := true;
        }
        forall m | 1 <= m < 32 ensures used[m] <==> Ended(code, m, i + 1) {
          assert was[m] <==> Ended(code, m, i);
          assert used[m] <==> was[m] || m == c;
        }
        current := 0;
      }
      i := i + 1;
    }
    k := 0;
    while k < 32 && used[k]
      invariant k <= 32 && forall m | 0 <= m < k :: used[m]
    {
      k := k + 1;
    }
    forall m: nat ensures Ended(code, m, |code| + 1) <==> HasRun(code, 0, m) {
      assert forall a | IsRun(code, 0, a, m) :: a + m < |code| + 1;
    }
  }

  /** The code span case of S_render_node, for output that is not wrapped; every use of the literal stops at its first NUL. */
  method RenderCode(literal: string) returns (out: string, numTicks: nat)
    ensures Shortest(CString(literal), numTicks) && out == Render(CString(literal), numTicks)
  {
    var code := CString(literal);
    numTicks := ShortestUnused(code);
    var extraSpaces := code == "" || code[0] == '`' || code[|code| - 1] == '`' || code[0] == ' ' || code[|code| - 1] == ' ';
    out := "";
    for i := 0 to numTicks
      invariant out == Ticks(i)
    {
      out := out + "`";
    }
    if extraSpaces {
      out := out + " ";
    }
    out := out + code;
    if extraSpaces {
      out := out + " ";
    }
    assert out == Ticks(numTicks) + Padded(code) + Ticks(0);
    for i := 0 to numTicks
      invariant out == Ticks(numTicks) + Padded(code) + Ticks(i)
    {
      assert Ticks(i + 1) == Ticks(i) + "`";
      out := out + "`";
    }
  }
}
