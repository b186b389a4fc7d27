/** The parser's position in the current line: the loops of blocks.c over offset, column and the cached first non-space. */
module LineCursor {

  import opened Common
  import opened Columns

  // ---------- what the prefixes consume, on values ----------

  /** Any number of columns up to the first non-space is consumed exactly, and the scan from there finds the same place. */
  lemma {:induction false} AdvanceWithin(input: string, c: Cursor, count: nat)
    requires c.column + count <= Nonspace(input, c.offset, c.column).1
    ensures var d := Advance(input, c, count, true);
            d.column == c.column + count && Nonspace(input, d.offset, d.column) == Nonspace(input, c.offset, c.column)
    decreases count
  {
    if count > 0 {
      assert SpaceOrTab(Peek(input, c.offset));
      var (d, used) := Move(input, c, count, true);
      if d.offset == c.offset {
        PartlyPast(input, c, count);
        assert Advance(input, d, 0, true) == d;
      } else {
        assert Nonspace(input, d.offset, d.column) == Nonspace(input, c.offset, c.column);
        AdvanceWithin(input, d, count - used);
      }
    }
  }

  lemma PartlyPast(input: string, c: Cursor, count: nat)
    requires More(input, c) && input[c.offset] == '\t' && 0 < count < ToStop(c.column)
    ensures Nonspace(input, c.offset, c.column + count) == Nonspace(input, c.offset, c.column)
  {
    InsideTab(c.column, c.column + count);
  }

  /** The indent can be skipped by bytes or by columns. */
  lemma {:induction false} BytesOrColumns(input: string, c: Cursor)
    requires c.offset <= |input|
    ensures var (at, column) := Nonspace(input, c.offset, c.column);
            Advance(input, c, at - c.offset, false) == Advance(input, c, column - c.column, true)
    ensures var (at, column) := Nonspace(input, c.offset, c.column);
            Advance(input, c, at - c.offset, false) == if at == c.offset then c else Cursor(at, column, false)
    decreases |input| - c.offset
  {
    AdvanceToNonspace(input, c);
    if SpaceOrTab(Peek(input, c.offset)) {
      BytesOrColumns(input, Cursor(c.offset + 1, Past(input[c.offset], c.column), false));
    }
  }

  // The cursor behind a block quote's marker: its optional space is one column, also of a tab.
  function BehindMarker(input: string, at: nat, column: nat): Cursor {
    var c := Cursor(at + 1, column + 1, false);
    if SpaceOrTab(Peek(input, at + 1)) then Advance(input, c, 1, true) else c
  }

  /** One column more than an advance that stopped before an ordinary byte is one byte more. */
  lemma AdvanceThenByte(input: string, c: Cursor, count: nat, d: Cursor)
    requires Advance(input, c, count, true) == d && Peek(input, d.offset) != '\0' && Peek(input, d.offset) != '\t'
    ensures Advance(input, c, count + 1, true) == Cursor(d.offset + 1, d.column + 1, false)
  {
    OneByte(input, d);
    AdvanceAdds(input, c, count, 1, true);
  }

  lemma MarkerByColumns(input: string, c: Cursor, at: nat, column: nat, indent: nat) returns (d: Cursor)
    requires c.offset <= |input| && (at, column) == Nonspace(input, c.offset, c.column) && indent == column - c.column
    requires Peek(input, at) != '\0'
    ensures d == Cursor(at + 1, column + 1, false) && d == Advance(input, c, indent + 1, true)
  {
    d := Cursor(at + 1, column + 1, false);
    AdvanceToNonspace(input, c);
    AdvanceThenByte(input, c, indent, Advance(input, c, indent, true));
  }

  lemma OneByte(input: string, c: Cursor)
    requires More(input, c) && input[c.offset] != '\t'
    ensures Advance(input, c, 1, true) == Cursor(c.offset + 1, c.column + 1, false)
  {
    assert Advance(input, Cursor(c.offset + 1, c.column + 1, false), 0, true) == Cursor(c.offset + 1, c.column + 1, false);
  }

  lemma {:induction false} MarkerByBytes(input: string, c: Cursor, count: nat)
    requires c.offset + count <= |input|
    requires forall k :: c.offset <= k < c.offset + count ==> input[k] != '\t' && input[k] != '\0'
    ensures Advance(input, c, count, false) == if count == 0 then c else Cursor(c.offset + count, c.column + count, false)
    decreases count
  {
    if count > 0 {
      MarkerByBytes(input, Cursor(c.offset + 1, c.column + 1, false), count - 1);
    }
  }

  /** The padding of a list item (section 5.2 of the GitHub Flavored Markdown Spec) and the cursor behind it. */
  function ItemStart(input: string, c: Cursor, matched: nat): (nat, Cursor) {
    var (at, column) := Nonspace(input, c.offset, c.column);
    var width := column - c.column;
    if 1 <= width <= 4 && !LineEnd(Peek(input, at)) then (matched + width, Cursor(at, column, false))
    else (matched + 1, if width > 0 then Advance(input, c, 1, true) else c)
  }

  /** An item's content starts padding columns behind its marker's first column, unless nothing follows the marker. */
  lemma PaddingIsContentColumn(input: string, c: Cursor, matched: nat)
    requires c.offset <= |input|
    ensures var (padding, d) := ItemStart(input, c, matched);
            if SpaceOrTab(Peek(input, c.offset)) then d.column - c.column == padding - matched
            else d == c && padding == matched + 1
  {
    if SpaceOrTab(Peek(input, c.offset)) {
      AdvanceWithin(input, c, 1);
    }
  }

  // The cursor before the line ending.
  function BeforeEnd(input: string, c: Cursor): Cursor {
    if |input| - 1 > c.offset then Advance(input, c, |input| - 1 - c.offset, false) else c
  }

  // The cursor behind the four columns of indented code.
  function PastIndent(input: string, c: Cursor): Cursor {
    Advance(input, c, 4, true)
  }

  // The cursor behind n bytes at the first non-space.
  function Behind(input: string, c: Cursor, n: nat): Cursor {
    Advance(input, c, Nonspace(input, c.offset, c.column).0 + n - c.offset, false)
  }

  // ---------- the parser's fields ----------

  class Parser {
    var offset: nat
    var column: nat
    var firstNonspace: nat
    var firstNonspaceColumn: nat
    var indent: nat
    var blank: bool
    var partiallyConsumedTab: bool

    function At(): Cursor
      reads this`offset, this`column, this`partiallyConsumedTab
    {
      Cursor(offset, column, partiallyConsumedTab)
    }

    ghost function Cache(): (nat, nat)
      reads this`firstNonspace, this`firstNonspaceColumn
    {
      (firstNonspace, firstNonspaceColumn)
    }

    // The column is the width consumed, and the remembered first non-space is still right.
    ghost predicate Valid(input: string, start: nat)
      reads this
    {
      Sound(input, start, At()) && Remembered(input, At(), Cache())
    }

    // S_find_first_nonspace has been called at this cursor.
    ghost predicate Scanned(input: string)
      reads this
    {
      && Cache() == Nonspace(input, offset, column)
      && column + indent == firstNonspaceColumn
      && blank == LineEnd(Peek(input, firstNonspace))
    }

    constructor (input: string, lineNumber: nat)
      ensures Valid(input, TextStart(input, lineNumber))
      ensures At() == Cursor(TextStart(input, lineNumber), 0, false)
    {
      offset := if lineNumber == 0 && |input| >= 3 && input[..3] == BYTE_ORDER_MARK then 3 else 0;
      column, firstNonspace, firstNonspaceColumn, indent := 0, 0, 0, 0;
      blank, partiallyConsumedTab := false, false;
    }

    // S_advance_offset
    method AdvanceOffset(input: string, count: nat, columns: bool)
      modifies this`offset, this`column, this`partiallyConsumedTab
      ensures At() == Advance(input, old(At()), count, columns)
    {
      var n: nat := count;
      while n > 0 && Peek(input, offset) != '\0'
        invariant Advance(input, At(), n, columns) == Advance(input, old(At()), count, columns)
        decreases n
      {
        ghost var before := n;
        ghost var d, used := AdvanceOnce(input, At(), n, columns);
        if input[offset] == '\t' {
          ToStopIsModulo(column);
          var charsToTab := 4 - column % 4;
          if columns {
            partiallyConsumedTab := charsToTab > n;
            var charsToAdvance := if n < charsToTab then n else charsToTab;
            column := column + charsToAdvance;
            offset := offset + if partiallyConsumedTab then 0 else 1;
            n := n - charsToAdvance;
          } else {
            partiallyConsumedTab := false;
            column := column + charsToTab;
            offset := offset + 1;
            n := n - 1;
          }
        } else {
          partiallyConsumedTab := false;
          offset := offset + 1;
          column := column + 1;
          n := n - 1;
        }
        assert At() == d && n == before - used;
      }
    }

    // Advancing keeps every field's meaning.
    method Consume(input: string, count: nat, columns: bool, ghost start: nat)
      requires Valid(input, start)
      modifies this`offset, this`column, this`partiallyConsumedTab
      ensures At() == Advance(input, old(At()), count, columns)
      ensures Valid(input, start)
    {
      AdvanceSound(input, start, At(), count, columns);
      AdvanceRemembers(input, At(), count, columns, Cache());
      AdvanceOffset(input, count, columns);
    }

    // To the place behind n bytes at the first non-space.
    method ConsumeBehind(input: string, n: nat, ghost start: nat)
      requires Valid(input, start) && Scanned(input)
      modifies this`offset, this`column, this`partiallyConsumedTab
      ensures Valid(input, start) && At() == Behind(input, old(At()), n) && offset >= old(offset)
    {
      Consume(input, firstNonspace + n - offset, false, start);
    }

    method ConsumeIndent(input: string, ghost start: nat)
      requires Valid(input, start)
      modifies this`offset, this`column, this`partiallyConsumedTab
      ensures Valid(input, start) && At() == PastIndent(input, old(At())) && offset >= old(offset)
    {
      Consume(input, 4, true, start);
    }

    // To the place before the line ending.
    method ConsumeLine(input: string, ghost start: nat)
      requires Valid(input, start)
      modifies this`offset, this`column, this`partiallyConsumedTab
      ensures Valid(input, start) && At() == BeforeEnd(input, old(At())) && offset >= old(offset)
    {
      if |input| - 1 > offset {
        Consume(input, |input| - 1 - offset, false, start);
      }
    }

    method FindFirstNonspace(input: string, ghost start: nat)
      requires Valid(input, start)
      modifies this`firstNonspace, this`firstNonspaceColumn, this`indent, this`blank
      ensures Scanned(input) && Valid(input, start)
    {
      ToStopIsModulo(column);
      var charsToTab := 4 - column % 4;
      if firstNonspace <= offset {
        firstNonspace := offset;
        firstNonspaceColumn := column;
        while SpaceOrTab(Peek(input, firstNonspace))
          invariant charsToTab == ToStop(firstNonspaceColumn)
          invariant Nonspace(input, firstNonspace, firstNonspaceColumn) == Nonspace(input, offset, column)
          decreases |input| - firstNonspace
        {
          ToStopTicks(firstNonspaceColumn);
          if input[firstNonspace] == ' ' {
            firstNonspace := firstNonspace + 1;
            firstNonspaceColumn := firstNonspaceColumn + 1;
            charsToTab := charsToTab - 1;
            if charsToTab == 0 {
              charsToTab := 4;
            }
          } else {
            firstNonspace := firstNonspace + 1;
            firstNonspaceColumn := firstNonspaceColumn + charsToTab;
            charsToTab := 4;
          }
        }
      }
      indent := firstNonspaceColumn - column;
      blank := LineEnd(Peek(input, firstNonspace));
    }

    // add_line
    method AddLine(input: string, content: string, ghost start: nat) returns (added: string)
      requires Valid(input, start)
      modifies this`offset
      ensures added == content + Added(input, old(At()))
      ensures |Expand(input[start..], 0)| >= old(column)
      ensures Expand(Added(input, old(At())), old(column)) == Expand(input[start..], 0)[old(column)..]
    {
      AddedIsRest(input, start, At());
      added := content;
      if partiallyConsumedTab {
        offset := offset + 1;
        ToStopIsModulo(column);
        added := AddSpaces(content, 4 - column % 4);
        JoinThree(content, Spaces(ToStop(column)), input[offset..]);
      }
      added := added + input[offset..];
    }

    method AddSpaces(content: string, charsToTab: nat) returns (added: string)
      ensures added == content + Spaces(charsToTab)
    {
      added := content;
      var i := 0;
      while i < charsToTab
        invariant i <= charsToTab
        invariant added == content + Spaces(i)
      {
        added := added + " ";
        i := i + 1;
      }
    }

    // parse_block_quote_prefix
    method BlockQuotePrefix(input: string, ghost start: nat) returns (res: bool)
      requires Valid(input, start) && Scanned(input)
      modifies this`offset, this`column, this`partiallyConsumedTab
      ensures Valid(input, start)
      ensures res <==> indent <= 3 && Peek(input, firstNonspace) == '>'
      ensures At() == if res then BehindMarker(input, firstNonspace, firstNonspaceColumn) else old(At())
    {
      res := indent <= 3 && Peek(input, firstNonspace) == '>';
      if res {
        ghost var c := MarkerByColumns(input, At(), firstNonspace, firstNonspaceColumn, indent);
        Consume(input, indent + 1, true, start);
        assert At() == c;
        if SpaceOrTab(Peek(input, offset)) {
          Consume(input, 1, true, start);
        }
      }
    }

    // The opening of a block quote, which counts bytes where the prefix counts columns.
    method OpenBlockQuote(input: string, ghost start: nat)
      requires Valid(input, start) && Scanned(input) && Peek(input, firstNonspace) == '>'
      modifies this`offset, this`column, this`partiallyConsumedTab
      ensures Valid(input, start)
      ensures At() == BehindMarker(input, firstNonspace, firstNonspaceColumn)
    {
      SkipToMarker(input, At(), 1);
      Consume(input, firstNonspace + 1 - offset, false, start);
      if SpaceOrTab(Peek(input, offset)) {
        Consume(input, 1, true, start);
      }
    }

    // parse_node_item_prefix
    method ItemPrefix(input: string, width: nat, hasChild: bool, ghost start: nat) returns (res: bool)
      requires Valid(input, start) && Scanned(input)
      modifies this`offset, this`column, this`partiallyConsumedTab
      ensures Valid(input, start)
      ensures res <==> indent >= width || (blank && hasChild)
      ensures indent >= width ==> column == old(column) + width && Nonspace(input, offset, column) == Cache()
      ensures res && indent < width ==> (offset, column) == Cache()
      ensures At() == if indent >= width then Advance(input, old(At()), width, true)
                      else if res then Advance(input, old(At()), firstNonspace - old(offset), false) else old(At())
    {
      res := false;
      if indent >= width {
        AdvanceWithin(input, At(), width);
        Consume(input, width, true, start);
        res := true;
      } else if blank && hasChild {
        BytesOrColumns(input, At());
        Consume(input, firstNonspace - offset, false, start);
        res := true;
      }
    }

    // The loop of the padding computation: up to six columns of spaces and tabs.
    method AtMostSixColumns(input: string, ghost start: nat)
      requires Valid(input, start)
      modifies this`offset, this`column, this`partiallyConsumedTab
      ensures Valid(input, start)
      ensures var (at, end) := Nonspace(input, old(offset), old(column));
              if end - old(column) >= 6 then column == old(column) + 6
              else At() == if at == old(offset) then old(At()) else Cursor(at, end, false)
    {
      ghost var c := At();
      ghost var d := c;
      var savedColumn := column;
      while column - savedColumn <= 5 && SpaceOrTab(Peek(input, offset))
        invariant Valid(input, start)
        invariant savedColumn <= column <= savedColumn + 6
        invariant At() == d
        invariant Within(input, c, column - savedColumn, d)
        decreases savedColumn + 6 - column
      {
        d := OneColumn(input, c, column - savedColumn, d);
        Consume(input, 1, true, start);
      }
      SixOrAll(input, c, column - savedColumn, d);
    }

    // The padding computation of open_new_blocks behind a list marker of matched bytes.
    method ItemPadding(input: string, matched: nat, ghost start: nat) returns (padding: nat)
      requires Valid(input, start) && Scanned(input)
      requires 0 < matched && firstNonspace + matched <= |input|
      requires forall k :: firstNonspace <= k < firstNonspace + matched ==> input[k] != '\t' && input[k] != '\0'
      modifies this`offset, this`column, this`partiallyConsumedTab
      ensures Valid(input, start)
      ensures (padding, At()) == ItemStart(input, Cursor(firstNonspace + matched, firstNonspaceColumn + matched, false), matched)
    {
      SkipToMarker(input, At(), matched);
      Consume(input, firstNonspace + matched - offset, false, start);
      padding := PaddingBehind(input, matched, start);
    }

    method PaddingBehind(input: string, matched: nat, ghost start: nat) returns (padding: nat)
      requires Valid(input, start)
      modifies this`offset, this`column, this`partiallyConsumedTab
      ensures Valid(input, start)
      ensures (padding, At()) == ItemStart(input, old(At()), matched)
    {
      ghost var c := At();
      var savedTab, savedOffset, savedColumn := partiallyConsumedTab, offset, column;
      AtMostSixColumns(input, start);
      var i := column - savedColumn;
      WidthDecides(input, c, matched, At());
      if i >= 5 || i < 1 || LineEnd(Peek(input, offset)) {
        padding := matched + 1;
        offset := savedOffset;
        column := savedColumn;
        partiallyConsumedTab := savedTab;
        if i > 0 {
          Consume(input, 1, true, start);
        }
      } else {
        padding := matched + i;
      }
    }
  }

  // Six columns are enough to choose the padding.
  lemma WidthDecides(input: string, c: Cursor, matched: nat, d: Cursor)
    requires var (at, end) := Nonspace(input, c.offset, c.column);
             if end - c.column >= 6 then d.column == c.column + 6
             else d == if at == c.offset then c else Cursor(at, end, false)
    ensures d.column >= c.column
    ensures var i := d.column - c.column;
            ItemStart(input, c, matched) ==
            if i >= 5 || i < 1 || LineEnd(Peek(input, d.offset))
            then (matched + 1, if i > 0 then Advance(input, c, 1, true) else c)
            else (matched + i, d)
  {
  }

  // A number of columns before the first non-space leads from c to d.
  ghost predicate Within(input: string, c: Cursor, count: nat, d: Cursor) {
    && d == Advance(input, c, count, true) && d.column == c.column + count
    && Nonspace(input, d.offset, d.column) == Nonspace(input, c.offset, c.column)
  }

  lemma OneColumn(input: string, c: Cursor, count: nat, d: Cursor) returns (e: Cursor)
    requires Within(input, c, count, d) && SpaceOrTab(Peek(input, d.offset))
    ensures e == Advance(input, d, 1, true) && Within(input, c, count + 1, e)
  {
    e := Advance(input, d, 1, true);
    AdvanceAdds(input, c, count, 1, true);
    AdvanceWithin(input, d, 1);
  }

  lemma JoinThree(a: string, b: string, c: string)
    ensures (a + b) + c == a + (b + c)
  {
  }

  lemma AdvanceOnce(input: string, c: Cursor, count: nat, columns: bool) returns (d: Cursor, used: nat)
    requires count > 0 && More(input, c)
    ensures (d, used) == Move(input, c, count, columns)
    ensures Advance(input, c, count, columns) == Advance(input, d, count - used, columns)
  {
    d, used := Move(input, c, count, columns).0, Move(input, c, count, columns).1;
  }

  // An advance that stopped inside the spaces took six columns; otherwise it took them all.
  lemma SixOrAll(input: string, c: Cursor, count: nat, d: Cursor)
    requires c.offset <= |input| && count <= 6 && Within(input, c, count, d)
    requires count == 6 || !SpaceOrTab(Peek(input, d.offset))
    ensures var (at, end) := Nonspace(input, c.offset, c.column);
            if end - c.column >= 6 then count == 6 else d == if at == c.offset then c else Cursor(at, end, false)
  {
    AdvanceToNonspace(input, c);
  }

  const BYTE_ORDER_MARK: string := "\U{EF}\U{BB}\U{BF}"

  // Where the text of a line begins: behind the byte order mark of the first line.
  function TextStart(input: string, lineNumber: nat): (start: nat)
    ensures start <= |input|
  {
    if lineNumber == 0 && |input| >= 3 && input[..3] == BYTE_ORDER_MARK then 3 else 0
  }

  lemma SkipToMarker(input: string, c: Cursor, matched: nat)
    requires c.offset <= |input|
    requires var at := Nonspace(input, c.offset, c.column).0;
             0 < matched && at + matched <= |input| && forall k :: at <= k < at + matched ==> input[k] != '\t' && input[k] != '\0'
    ensures var (at, column) := Nonspace(input, c.offset, c.column);
            Advance(input, c, at + matched - c.offset, false) == Cursor(at + matched, column + matched, false)
  {
    var (at, column) := Nonspace(input, c.offset, c.column);
    BytesOrColumns(input, c);
    AdvanceToNonspace(input, c);
    AdvanceAdds(input, c, at - c.offset, matched, false);
    MarkerByBytes(input, Advance(input, c, at - c.offset, false), matched);
  }
}
