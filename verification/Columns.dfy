/** Tabs and columns in blocks.c: S_advance_offset, S_find_first_nonspace, add_line and the prefixes built on them. */
module Columns {

  // The byte at i; the buffer ends with NUL.
  function Peek(input: string, i: nat): char {
    if i < |input| then input[i] else '\0'
  }

  // The distance from a column to the next tab stop; stops are four columns apart.
  function ToStop(column: nat): (n: nat)
    ensures 1 <= n <= 4
  {
    if column < 4 then 4 - column else ToStop(column - 4)
  }

  lemma {:induction false} ToStopIsModulo(column: nat)
    ensures ToStop(column) == 4 - column % 4
  {
    if column >= 4 {
      ToStopIsModulo(column - 4);
    }
  }

  // The next tab stop behind a column.
  function NextStop(column: nat): nat {
    column + ToStop(column)
  }

  // How the distance goes down by one column and starts over at a stop.
  lemma {:induction false} ToStopTicks(column: nat)
    ensures ToStop(column + 1) == if ToStop(column) == 1 then 4 else ToStop(column) - 1
    ensures ToStop(NextStop(column)) == 4
  {
    if column >= 4 {
      ToStopTicks(column - 4);
    }
  }

  // The column behind one byte.
  function Past(c: char, column: nat): nat {
    if c == '\t' then NextStop(column) else column + 1
  }

  /** Section 2.2 of the GitHub Flavored Markdown Spec: the column at offset i of a line whose text begins at start. */
  function ColumnAt(input: string, start: nat, i: nat): nat
    requires start <= i <= |input|
    decreases i
  {
    if i == start then 0 else Past(input[i - 1], ColumnAt(input, start, i - 1))
  }

  // ---------- advancing on values ----------

  datatype Cursor = Cursor(offset: nat, column: nat, partial: bool)

  // Some byte of the line is left.
  predicate More(input: string, c: Cursor) {
    Peek(input, c.offset) != '\0'
  }

  // One turn of the loop, and how much of the count it uses.
  function Move(input: string, c: Cursor, count: nat, columns: bool): (r: (Cursor, nat))
    requires count > 0 && More(input, c)
    ensures 0 < r.1 <= count
    ensures r.0.offset == c.offset || r.0.offset == c.offset + 1
    ensures r.0.offset == c.offset ==> r.1 == count
  {
    if input[c.offset] == '\t' && columns then
      var toTab := ToStop(c.column);
      if toTab > count then (Cursor(c.offset, c.column + count, true), count)
      else (Cursor(c.offset + 1, c.column + toTab, false), toTab)
    else (Cursor(c.offset + 1, Past(input[c.offset], c.column), false), 1)
  }

  function Advance(input: string, c: Cursor, count: nat, columns: bool): (r: Cursor)
    ensures r.offset >= c.offset && (c.offset <= |input| ==> r.offset <= |input|)
    decreases count
  {
    if count == 0 || !More(input, c) then c
    else
      var (d, used) := Move(input, c, count, columns);
      Advance(input, d, count - used, columns)
  }

  /** Advancing by a and then by b is advancing by a + b, inside a tab as well. */
  lemma {:induction false} AdvanceAdds(input: string, c: Cursor, a: nat, b: nat, columns: bool)
    ensures Advance(input, c, a + b, columns) == Advance(input, Advance(input, c, a, columns), b, columns)
    decreases a + b
  {
    if a > 0 && b > 0 && More(input, c) {
      var (d, used) := Move(input, c, a, columns);
      if d.offset == c.offset {
        SplitTab(input, c, a, b);
      } else {
        LongerMove(input, c, a, b, columns);
        AdvanceAdds(input, d, a - used, b, columns);
      }
    }
  }

  // A move that leaves its byte does so for any longer count.
  lemma LongerMove(input: string, c: Cursor, a: nat, b: nat, columns: bool)
    requires a > 0 && More(input, c) && Move(input, c, a, columns).0.offset != c.offset
    ensures Move(input, c, a + b, columns) == Move(input, c, a, columns)
  {
  }

  // A tab of which a columns are consumed first.
  lemma SplitTab(input: string, c: Cursor, a: nat, b: nat)
    requires More(input, c) && input[c.offset] == '\t' && 0 < a < ToStop(c.column) && b > 0
    ensures var d := Cursor(c.offset, c.column + a, true);
            var (whole, rest) := (Move(input, c, a + b, true), Move(input, d, b, true));
            whole.0 == rest.0 && whole.1 == rest.1 + a
  {
    InsideTab(c.column, c.column + a);
  }

  lemma {:induction false} InsideTab(column: nat, inside: nat)
    requires column <= inside < NextStop(column)
    ensures NextStop(inside) == NextStop(column)
  {
    if column >= 4 {
      InsideTab(column - 4, inside - 4);
    }
  }

  // ---------- what the cursor means ----------

  /** The column is the width consumed; inside a partly consumed tab it lies strictly between the tab's two ends. */
  ghost predicate Sound(input: string, start: nat, c: Cursor) {
    && start <= c.offset <= |input|
    && if c.partial
       then Peek(input, c.offset) == '\t' && ColumnAt(input, start, c.offset) < c.column < NextStop(ColumnAt(input, start, c.offset))
       else c.column == ColumnAt(input, start, c.offset)
  }

  lemma {:induction false} AdvanceSound(input: string, start: nat, c: Cursor, count: nat, columns: bool)
    requires Sound(input, start, c)
    ensures Sound(input, start, Advance(input, c, count, columns))
    decreases count
  {
    if count > 0 && More(input, c) {
      var (d, used) := Move(input, c, count, columns);
      InsideTab(ColumnAt(input, start, c.offset), c.column);
      AdvanceSound(input, start, d, count - used, columns);
    }
  }

  /** Columns are counted exactly: the column moves by the count, unless the line ends first. */
  lemma {:induction false} AdvanceCounts(input: string, c: Cursor, count: nat)
    ensures var d := Advance(input, c, count, true);
            d.column == c.column + count || (d.column < c.column + count && !More(input, d))
    decreases count
  {
    if count > 0 && More(input, c) {
      var (d, used) := Move(input, c, count, true);
      AdvanceCounts(input, d, count - used);
    }
  }

  // ---------- the first non-space ----------

  predicate SpaceOrTab(c: char) {
    c == ' ' || c == '\t'
  }

  // The first byte that is no space or tab, and its column, scanned from a cursor.
  function Nonspace(input: string, offset: nat, column: nat): (r: (nat, nat))
    ensures r.0 >= offset && r.1 >= column && !SpaceOrTab(Peek(input, r.0))
    ensures offset <= |input| ==> r.0 <= |input|
    ensures r.0 == offset ==> r.1 == column
    decreases |input| - offset
  {
    if SpaceOrTab(Peek(input, offset)) then Nonspace(input, offset + 1, Past(input[offset], column)) else (offset, column)
  }

  // A position remembered earlier is the one a fresh scan would find.
  ghost predicate Remembered(input: string, c: Cursor, at: (nat, nat)) {
    at.0 > c.offset ==> at == Nonspace(input, c.offset, c.column)
  }

  /** The cache survives any advance: either the cursor is at or past it, or a fresh scan finds the same. */
  lemma {:induction false} AdvanceRemembers(input: string, c: Cursor, count: nat, columns: bool, at: (nat, nat))
    requires Remembered(input, c, at)
    ensures Remembered(input, Advance(input, c, count, columns), at)
    decreases count
  {
    if count > 0 && More(input, c) {
      var (d, used) := Move(input, c, count, columns);
      if at.0 > d.offset {
        assert SpaceOrTab(Peek(input, c.offset));
        if d.offset == c.offset {
          InsideTab(c.column, d.column);
        }
      }
      AdvanceRemembers(input, d, count - used, columns, at);
    }
  }

  /** Advancing by the indent in columns ends exactly at the first non-space. */
  lemma {:induction false} AdvanceToNonspace(input: string, c: Cursor)
    requires c.offset <= |input|
    ensures var (at, column) := Nonspace(input, c.offset, c.column);
            var d := Advance(input, c, column - c.column, true);
            d.offset == at && d.column == column && (at > c.offset ==> !d.partial)
    decreases |input| - c.offset
  {
    if SpaceOrTab(Peek(input, c.offset)) {
      SkipOne(input, c, Nonspace(input, c.offset, c.column).1 - c.column);
      AdvanceToNonspace(input, Cursor(c.offset + 1, Past(input[c.offset], c.column), false));
    }
  }

  lemma SkipOne(input: string, c: Cursor, count: nat)
    requires SpaceOrTab(Peek(input, c.offset)) && c.column + count >= Past(input[c.offset], c.column)
    ensures var next := Past(input[c.offset], c.column);
            Advance(input, c, count, true) == Advance(input, Cursor(c.offset + 1, next, false), c.column + count - next, true)
  {
  }

  // ---------- expanded text ----------

  function Spaces(n: nat): string {
    seq(n, _ => ' ')
  }

  // The line as its columns show it: each tab replaced by the spaces up to its stop.
  function Expand(s: string, column: nat): string
    decreases |s|
  {
    if s == "" then ""
    else Shown(s[0], column) + Expand(s[1..], Past(s[0], column))
  }

  lemma DropMore<T>(s: seq<T>, head: seq<T>, tail: seq<T>, from: nat, k: nat)
    requires from <= |s| && s[from..] == head + tail && k <= |head|
    ensures from + k <= |s| && s[from + k..] == head[k..] + tail
  {
    assert s[from + k..] == s[from..][k..];
  }

  // The columns a byte occupies.
  function Shown(c: char, column: nat): (t: string)
    ensures column + |t| == Past(c, column)
  {
    if c == '\t' then Spaces(ToStop(column)) else [c]
  }

  lemma {:induction false} ExpandFrom(input: string, start: nat, offset: nat)
    requires start <= offset <= |input|
    ensures |Expand(input[start..], 0)| >= ColumnAt(input, start, offset)
    ensures Expand(input[start..], 0)[ColumnAt(input, start, offset)..] == Expand(input[offset..], ColumnAt(input, start, offset))
    decreases offset
  {
    if offset > start {
      ExpandFrom(input, start, offset - 1);
      var (was, c) := (ColumnAt(input, start, offset - 1), input[offset - 1]);
      ExpandHead(input, offset - 1, was);
      DropMore(Expand(input[start..], 0), Shown(c, was), Expand(input[offset..], Past(c, was)), was, |Shown(c, was)|);
    }
  }

  lemma ExpandHead(input: string, offset: nat, column: nat)
    requires offset < |input|
    ensures Expand(input[offset..], column)
         == Shown(input[offset], column) + Expand(input[offset + 1..], Past(input[offset], column))
  {
    assert input[offset..][1..] == input[offset + 1..];
  }

  // What add_line appends for a cursor.
  function Added(input: string, c: Cursor): string
    requires c.offset <= |input| && (c.partial ==> c.offset < |input|)
  {
    if c.partial then Spaces(ToStop(c.column)) + input[c.offset + 1..] else input[c.offset..]
  }

  /** Whatever was consumed, the text added shows exactly the columns of the line that are left. */
  lemma AddedIsRest(input: string, start: nat, c: Cursor)
    requires Sound(input, start, c)
    ensures c.partial ==> c.offset < |input|
    ensures |Expand(input[start..], 0)| >= c.column
    ensures Expand(Added(input, c), c.column) == Expand(input[start..], 0)[c.column..]
  {
    ExpandFrom(input, start, c.offset);
    if c.partial {
      var at := ColumnAt(input, start, c.offset);
      ExpandHead(input, c.offset, at);
      InsideTab(at, c.column);
      RestOfTab(Expand(input[start..], 0), input[c.offset + 1..], at, c.column);
    }
  }

  // Inside a tab, what is left is the rest of its spaces and the text behind it.
  lemma RestOfTab(all: string, rest: string, at: nat, column: nat)
    requires at <= column < NextStop(at) == NextStop(column)
    requires at <= |all| && all[at..] == Shown('\t', at) + Expand(rest, NextStop(at))
    ensures column <= |all| && all[column..] == Expand(Spaces(ToStop(column)) + rest, column)
  {
    var (n, tail) := (ToStop(at), Expand(rest, NextStop(at)));
    assert all[column..] == Spaces(n)[column - at..] + tail by { DropMore(all, Spaces(n), tail, at, column - at); }
    FewerSpaces(n, column - at);
    ExpandSpaces(n - (column - at), rest, column);
  }

  lemma FewerSpaces(n: nat, k: nat)
    requires k <= n
    ensures Spaces(n)[k..] == Spaces(n - k)
  {
  }

  lemma {:induction false} ExpandSpaces(n: nat, rest: string, column: nat)
    ensures Expand(Spaces(n) + rest, column) == Spaces(n) + Expand(rest, column + n)
    decreases n
  {
    if n == 0 {
      assert Spaces(0) + rest == rest;
    } else {
      assert (Spaces(n) + rest)[1..] == Spaces(n - 1) + rest;
      ExpandSpaces(n - 1, rest, column + 1);
      assert Spaces(n) == " " + Spaces(n - 1);
    }
  }
}
