/** Reading a line behind a prefix, as inside a block quote or a list item: everything is as many bytes further on. */
module LineShift {

  import opened Common
  import opened BlockScan
  import opened BlockTree
  import opened BlockLines
  import opened Columns
  import opened LineCursor

  // Where the marks that may start or continue blocks end: blanks, quotes and list markers.
  function Lead(s: string, i: nat): (end: nat)
    ensures end >= i
    decreases |s| - i
  {
    if SpaceOrTab(Peek(s, i)) || Peek(s, i) == '>' then Lead(s, i + 1)
    else
      match ListMarker(s, i, false)
      case NoMarker => i
      case Marker(matched, _) => Lead(s, i + matched)
  }

  // No tab stands where columns may be measured.
  predicate Untabbed(s: string, i: nat) {
    forall k | i <= k < Lead(s, i) :: Peek(s, k) != '\t'
  }

  // A byte that may belong to the marks at the start of a line.
  predicate Mark(c: char) {
    SpaceOrTab(c) || Digit(c) || c in "*-+.)>"
  }

  // The marks end at the first byte that is none, so behind it tabs may stand anywhere.
  lemma {:induction false} LeadEnds(s: string, i: nat, j: nat)
    requires i <= j && !Mark(Peek(s, j))
    ensures Lead(s, i) <= j
    decreases j - i
  {
    if i < j && Lead(s, i) > i {
      MarkBytes(s, i);
      var next := if SpaceOrTab(Peek(s, i)) || Peek(s, i) == '>' then i + 1 else i + ListMarker(s, i, false).matched;
      assert next <= j;
      LeadEnds(s, next, j);
    }
  }

  lemma MarkBytes(s: string, i: nat)
    ensures var m := ListMarker(s, i, false);
            m.Marker? ==> forall k | i <= k < i + m.matched :: Mark(Peek(s, k))
  {
    var n := DigitRun(s, i);
  }

  // Behind the prefix: a cursor that many bytes further on; how wide the line is before it does not matter.
  predicate Loose(pre: string, c: Cursor, d: Cursor) {
    d.offset == c.offset + |pre| && !c.partial && !d.partial
  }

  // Behind a prefix that is whole tab stops wide, at the same distance from the next stop.
  predicate Level(pre: string, c: Cursor, d: Cursor) {
    |pre| % 4 == 0 && d == Cursor(c.offset + |pre|, c.column + |pre|, c.partial)
  }

  predicate Near(pre: string, c: Cursor, d: Cursor) {
    Loose(pre, c, d) || Level(pre, c, d)
  }

  // Cursors from which columns may be measured.
  predicate Apart(pre: string, s: string, c: Cursor, d: Cursor) {
    Level(pre, c, d) || (Loose(pre, c, d) && Untabbed(s, c.offset))
  }

  // ---------- scanners ----------

  // The scanners look only at what follows their position.
  ghost predicate LocalAt(scan: Scanners, pre: string, line: string, i: nat) {
    var q := pre + line;
    && scan.atxHeading(q, i + |pre|) == scan.atxHeading(line, i) && scan.setextHeading(q, i + |pre|) == scan.setextHeading(line, i)
    && scan.openFence(q, i + |pre|) == scan.openFence(line, i) && scan.closeFence(q, i + |pre|) == scan.closeFence(line, i)
    && scan.htmlStart(q, i + |pre|) == scan.htmlStart(line, i) && scan.htmlStart7(q, i + |pre|) == scan.htmlStart7(line, i)
    && forall htmlType :: scan.htmlEnd(htmlType, q, i + |pre|) == scan.htmlEnd(htmlType, line, i)
  }

  ghost predicate Local(scan: Scanners) {
    forall pre, line, i: nat :: LocalAt(scan, pre, line, i)
  }

  // ---------- cursors ----------

  lemma PeekOver(pre: string, s: string, i: nat)
    ensures Peek(pre + s, i + |pre|) == Peek(s, i)
  {
  }

  lemma Stops(column: nat, gap: nat)
    ensures NextStop(column + gap) >= NextStop(column) && (NextStop(column + gap) - NextStop(column)) % 4 == 0
    ensures gap % 4 == 0 ==> NextStop(column + gap) == NextStop(column) + gap
  {
    ToStopIsModulo(column);
    ToStopIsModulo(column + gap);
  }

  // Columns that are whole tab stops apart stay so.
  lemma {:induction false} StopsApart(pre: string, s: string, offset: nat, column: nat, gap: nat)
    requires gap % 4 == 0
    ensures Nonspace(pre + s, offset + |pre|, column + gap)
         == (Nonspace(s, offset, column).0 + |pre|, Nonspace(s, offset, column).1 + gap)
    decreases |s| - offset
  {
    PeekOver(pre, s, offset);
    if SpaceOrTab(Peek(s, offset)) {
      Stops(column, gap);
      StopsApart(pre, s, offset + 1, Past(s[offset], column), gap);
    }
  }

  /** Behind a prefix as wide as it is long the indent has the same width exactly if there is no tab in it, or the prefix is
      whole tab stops wide. */
  lemma {:induction false} NonspaceOver(pre: string, s: string, offset: nat, column: nat)
    ensures var (at, end) := Nonspace(s, offset, column);
            Nonspace(pre + s, offset + |pre|, column + |pre|).1 == end + |pre|
            <==> |pre| % 4 == 0 || forall k | offset <= k < at :: Peek(s, k) != '\t'
    decreases |s| - offset
  {
    PeekOver(pre, s, offset);
    if Peek(s, offset) == ' ' {
      NonspaceOver(pre, s, offset + 1, column + 1);
    } else if Peek(s, offset) == '\t' {
      Stops(column, |pre|);
      StopsApart(pre, s, offset + 1, NextStop(column), NextStop(column + |pre|) - NextStop(column));
    }
  }

  // The place does not depend on the column.
  lemma {:induction false} NonspaceAtOver(pre: string, s: string, offset: nat, column: nat, other: nat)
    ensures Nonspace(pre + s, offset + |pre|, other).0 == Nonspace(s, offset, column).0 + |pre|
    decreases |s| - offset
  {
    PeekOver(pre, s, offset);
    if SpaceOrTab(Peek(s, offset)) {
      NonspaceAtOver(pre, s, offset + 1, Past(s[offset], column), Past((pre + s)[offset + |pre|], other));
    }
  }

  // Without tabs the width of the indent is its length.
  lemma {:induction false} IndentLength(s: string, offset: nat, column: nat)
    requires forall k | offset <= k < Nonspace(s, offset, column).0 :: Peek(s, k) != '\t'
    ensures Nonspace(s, offset, column).1 - column == Nonspace(s, offset, column).0 - offset
    ensures forall k | offset <= k < Nonspace(s, offset, column).0 :: Peek(s, k) == ' '
    decreases |s| - offset
  {
    if SpaceOrTab(Peek(s, offset)) {
      assert Peek(s, offset) == ' ';
      IndentLength(s, offset + 1, column + 1);
    }
  }

  // The marks go on behind a blank.
  lemma {:induction false} LeadBehind(s: string, offset: nat, column: nat, k: nat)
    requires offset <= k <= Nonspace(s, offset, column).0
    ensures Lead(s, k) == Lead(s, offset)
    decreases k - offset
  {
    if offset < k {
      LeadBehind(s, offset + 1, Past(s[offset], column), k);
    }
  }

  // Both lines measure the same indent; without tabs it is all spaces.
  lemma IndentOver(pre: string, s: string, c: Cursor, d: Cursor)
    requires Apart(pre, s, c, d)
    ensures var (at, column) := Nonspace(s, c.offset, c.column);
            var (atOver, columnOver) := Nonspace(pre + s, d.offset, d.column);
            && atOver == at + |pre| && column - c.column == columnOver - d.column && Peek(pre + s, atOver) == Peek(s, at)
            && Apart(pre, s, Cursor(at, column, false), Cursor(atOver, columnOver, false))
  {
    var (at, column) := Nonspace(s, c.offset, c.column);
    PeekOver(pre, s, at);
    if Level(pre, c, d) {
      StopsApart(pre, s, c.offset, c.column, |pre|);
    } else {
      SpacesOver(pre, s, c, d);
      LeadBehind(s, c.offset, c.column, at);
    }
  }

  lemma SpacesOver(pre: string, s: string, c: Cursor, d: Cursor)
    requires Loose(pre, c, d) && Untabbed(s, c.offset)
    ensures var (at, column) := Nonspace(s, c.offset, c.column);
            var (atOver, columnOver) := Nonspace(pre + s, d.offset, d.column);
            && atOver == at + |pre| && column - c.column == columnOver - d.column == at - c.offset
            && forall k | c.offset <= k < at :: Peek(s, k) == ' '
  {
    var at := Nonspace(s, c.offset, c.column).0;
    NonspaceAtOver(pre, s, c.offset, c.column, d.column);
    LeadBehind(s, c.offset, c.column, at);
    IndentLength(s, c.offset, c.column);
    forall k | d.offset <= k < at + |pre| ensures Peek(pre + s, k) == ' ' {
      PeekOver(pre, s, k - |pre|);
    }
    IndentLength(pre + s, d.offset, d.column);
  }

  lemma {:induction false} AdvanceLevel(pre: string, s: string, c: Cursor, d: Cursor, count: nat, columns: bool)
    requires Level(pre, c, d)
    ensures Level(pre, Advance(s, c, count, columns), Advance(pre + s, d, count, columns))
    decreases count
  {
    PeekOver(pre, s, c.offset);
    if count > 0 && More(s, c) {
      Stops(c.column, |pre|);
      var (e, used) := Move(s, c, count, columns);
      var (f, usedOver) := Move(pre + s, d, count, columns);
      assert used == usedOver && Level(pre, e, f);
      AdvanceLevel(pre, s, e, f, count - used, columns);
    }
  }

  lemma {:induction false} BytesOver(pre: string, s: string, c: Cursor, d: Cursor, count: nat)
    requires Near(pre, c, d)
    ensures Near(pre, Advance(s, c, count, false), Advance(pre + s, d, count, false))
    decreases count
  {
    PeekOver(pre, s, c.offset);
    if Level(pre, c, d) {
      AdvanceLevel(pre, s, c, d, count, false);
    } else if count > 0 && More(s, c) {
      BytesOver(pre, s, Move(s, c, count, false).0, Move(pre + s, d, count, false).0, count - 1);
    }
  }

  // Inside an indent of spaces a byte is a column.
  lemma {:induction false} EachSpace(s: string, c: Cursor, count: nat, columns: bool)
    requires forall k | c.offset <= k < c.offset + count :: Peek(s, k) == ' '
    ensures Advance(s, c, count, columns) == if count == 0 then c else Cursor(c.offset + count, c.column + count, false)
    decreases count
  {
    if count > 0 {
      assert Peek(s, c.offset) == ' ';
      EachSpace(s, Cursor(c.offset + 1, c.column + 1, false), count - 1, columns);
    }
  }

  // Up to the first non-space columns can be measured all along.
  lemma ColumnsOver(pre: string, s: string, c: Cursor, d: Cursor, count: nat)
    requires Apart(pre, s, c, d) && count <= Nonspace(s, c.offset, c.column).1 - c.column
    ensures Apart(pre, s, Advance(s, c, count, true), Advance(pre + s, d, count, true))
  {
    if Level(pre, c, d) {
      AdvanceLevel(pre, s, c, d, count, true);
    } else {
      SpacesOver(pre, s, c, d);
      InsideIndent(pre, s, c, d, count, true);
    }
  }

  lemma InsideIndent(pre: string, s: string, c: Cursor, d: Cursor, count: nat, columns: bool)
    requires Loose(pre, c, d) && Untabbed(s, c.offset) && count <= Nonspace(s, c.offset, c.column).0 - c.offset
    ensures Apart(pre, s, Advance(s, c, count, columns), Advance(pre + s, d, count, columns))
  {
    SpacesOver(pre, s, c, d);
    EachSpace(s, c, count, columns);
    forall k | d.offset <= k < d.offset + count ensures Peek(pre + s, k) == ' ' {
      PeekOver(pre, s, k - |pre|);
    }
    EachSpace(pre + s, d, count, columns);
    LeadBehind(s, c.offset, c.column, c.offset + count);
  }

  lemma ToNonspaceOver(pre: string, s: string, c: Cursor, d: Cursor)
    requires Apart(pre, s, c, d)
    ensures var n := Nonspace(s, c.offset, c.column).0 - c.offset;
            Apart(pre, s, Advance(s, c, n, false), Advance(pre + s, d, n, false))
  {
    var n := Nonspace(s, c.offset, c.column).0 - c.offset;
    if Level(pre, c, d) {
      AdvanceLevel(pre, s, c, d, n, false);
    } else {
      InsideIndent(pre, s, c, d, n, false);
    }
  }

  lemma BehindMarkerOver(pre: string, s: string, at: nat, column: nat, other: nat)
    requires Peek(s, at) == '>' && Apart(pre, s, Cursor(at, column, false), Cursor(at + |pre|, other, false))
    ensures Apart(pre, s, BehindMarker(s, at, column), BehindMarker(pre + s, at + |pre|, other))
  {
    var (c, d) := (Cursor(at + 1, column + 1, false), Cursor(at + |pre| + 1, other + 1, false));
    assert Lead(s, at) == Lead(s, at + 1);
    PeekOver(pre, s, at + 1);
    if SpaceOrTab(Peek(s, at + 1)) {
      ColumnsOver(pre, s, c, d, 1);
    }
  }

  lemma BehindOver(pre: string, s: string, c: Cursor, d: Cursor, n: nat)
    requires Near(pre, c, d)
    ensures Near(pre, Behind(s, c, n), Behind(pre + s, d, n))
  {
    NonspaceAtOver(pre, s, c.offset, c.column, d.column);
    BytesOver(pre, s, c, d, Nonspace(s, c.offset, c.column).0 + n - c.offset);
  }

  // At the end of the line nothing is left to measure.
  lemma {:induction false} BytesToEnd(s: string, c: Cursor, count: nat)
    requires c.offset + count + 1 == |s| && LineEnd(s[|s| - 1])
    ensures Untabbed(s, Advance(s, c, count, false).offset)
    decreases count
  {
    if count > 0 && More(s, c) {
      BytesToEnd(s, Move(s, c, count, false).0, count - 1);
    }
  }

  lemma BeforeEndOver(pre: string, s: string, c: Cursor, d: Cursor)
    requires Near(pre, c, d) && s != "" && LineEnd(s[|s| - 1])
    ensures Apart(pre, s, BeforeEnd(s, c), BeforeEnd(pre + s, d))
  {
    if |s| - 1 > c.offset {
      BytesOver(pre, s, c, d, |s| - 1 - c.offset);
      BytesToEnd(s, c, |s| - 1 - c.offset);
    }
  }

  lemma ItemStartOver(pre: string, s: string, c: Cursor, d: Cursor, matched: nat)
    requires Apart(pre, s, c, d)
    ensures var ((padding, e), (paddingOver, f)) := (ItemStart(s, c, matched), ItemStart(pre + s, d, matched));
            paddingOver == padding && Apart(pre, s, e, f)
  {
    IndentOver(pre, s, c, d);
    if Nonspace(s, c.offset, c.column).1 > c.column {
      ColumnsOver(pre, s, c, d, 1);
    }
  }

  // Behind a marker, whether or not it may interrupt a paragraph, the marks go on.
  lemma UntabbedBehind(s: string, at: nat, interrupts: bool)
    requires Untabbed(s, at) && ListMarker(s, at, interrupts).Marker?
    ensures Untabbed(s, at + ListMarker(s, at, interrupts).matched)
  {
    var m := ListMarker(s, at, interrupts);
    assert ListMarker(s, at, false) == m;
    assert Lead(s, at) == Lead(s, at + m.matched);
  }

  lemma MarkerOver(pre: string, s: string, at: nat, column: nat, other: nat, interrupts: bool)
    requires ListMarker(s, at, interrupts).Marker? && Apart(pre, s, Cursor(at, column, false), Cursor(at + |pre|, other, false))
    ensures var n := ListMarker(s, at, interrupts).matched;
            Apart(pre, s, Cursor(at + n, column + n, false), Cursor(at + |pre| + n, other + n, false))
  {
    if Untabbed(s, at) {
      UntabbedBehind(s, at, interrupts);
    }
  }

  // An item whose marker is n bytes long.
  lemma ItemBehind(pre: string, s: string, c: Cursor, d: Cursor, n: nat, data: ListData)
    requires var ((at, column), (atOver, other)) := (Nonspace(s, c.offset, c.column), Nonspace(pre + s, d.offset, d.column));
             column - c.column == other - d.column && Apart(pre, s, Cursor(at + n, column + n, false), Cursor(atOver + n, other + n, false))
    ensures var ((item, e), (itemOver, f)) := (ItemAt(s, c, n, data), ItemAt(pre + s, d, n, data));
            itemOver == item && Apart(pre, s, e, f)
  {
    var ((at, column), (atOver, other)) := (Nonspace(s, c.offset, c.column), Nonspace(pre + s, d.offset, d.column));
    ItemStartOver(pre, s, Cursor(at + n, column + n, false), Cursor(atOver + n, other + n, false), n);
  }

  lemma ItemAtOver(pre: string, s: string, c: Cursor, d: Cursor, interrupts: bool)
    requires Apart(pre, s, c, d) && ListMarker(s, Nonspace(s, c.offset, c.column).0, interrupts).Marker?
    ensures var m := ListMarker(s, Nonspace(s, c.offset, c.column).0, interrupts);
            var ((item, e), (itemOver, f)) := (ItemAt(s, c, m.matched, m.data), ItemAt(pre + s, d, m.matched, m.data));
            itemOver == item && Apart(pre, s, e, f)
  {
    var (at, column) := Nonspace(s, c.offset, c.column);
    var m := ListMarker(s, at, interrupts);
    IndentOver(pre, s, c, d);
    MarkerOver(pre, s, at, column, Nonspace(pre + s, d.offset, d.column).1, interrupts);
    ItemBehind(pre, s, c, d, m.matched, m.data);
  }

  lemma FenceAtOver(pre: string, s: string, c: Cursor, d: Cursor, length: nat)
    requires Near(pre, c, d)
    ensures FenceAt(pre + s, d, length) == FenceAt(s, c, length)
  {
    NonspaceAtOver(pre, s, c.offset, c.column, d.column);
    PeekOver(pre, s, Nonspace(s, c.offset, c.column).0);
  }

  lemma RestOver(pre: string, s: string, c: Cursor, d: Cursor)
    requires Near(pre, c, d)
    ensures Rest(pre + s, d) == Rest(s, c)
  {
    Stops(c.column, |pre|);
  }

  lemma BlankOver(pre: string, s: string, c: Cursor, d: Cursor)
    requires Near(pre, c, d)
    ensures BlankAt(pre + s, d) == BlankAt(s, c)
  {
    NonspaceAtOver(pre, s, c.offset, c.column, d.column);
    PeekOver(pre, s, Nonspace(s, c.offset, c.column).0);
  }

  // ---------- scans by hand ----------

  lemma {:induction false} MarkRunOver(pre: string, s: string, i: nat, mark: char, count: nat)
    ensures var (end, marks) := MarkRun(s, i, mark, count);
            MarkRun(pre + s, i + |pre|, mark, count) == (end + |pre|, marks)
    decreases |s| - i
  {
    PeekOver(pre, s, i);
    var c := Peek(s, i);
    if c != '\0' && (c == mark || SpaceOrTab(c)) {
      MarkRunOver(pre, s, i + 1, mark, if c == mark then count + 1 else count);
    }
  }

  lemma ScanBreakOver(pre: string, s: string, i: nat)
    ensures ScanBreak(pre + s, i + |pre|).0 == ScanBreak(s, i).0
  {
    PeekOver(pre, s, i);
    MarkRunOver(pre, s, i + 1, Peek(s, i), 1);
    PeekOver(pre, s, MarkRun(s, i + 1, Peek(s, i), 1).0);
  }

  lemma {:induction false} DigitsOver(pre: string, s: string, i: nat, left: nat, value: nat)
    ensures var (end, number) := Digits(s, i, left, value);
            Digits(pre + s, i + |pre|, left, value) == (end + |pre|, number)
    decreases left
  {
    PeekOver(pre, s, i);
    if left > 0 && Digit(Peek(s, i)) {
      DigitsOver(pre, s, i + 1, left - 1, 10 * value + (s[i] as int - '0' as int));
    }
  }

  lemma NothingFollowsOver(pre: string, s: string, i: nat)
    ensures NothingFollows(pre + s, i + |pre|) == NothingFollows(s, i)
  {
    NonspaceAtOver(pre, s, i, 0, 0);
    PeekOver(pre, s, Nonspace(s, i, 0).0);
  }

  lemma BulletOver(pre: string, s: string, i: nat, interrupts: bool)
    requires !Digit(Peek(s, i))
    ensures ListMarker(pre + s, i + |pre|, interrupts) == ListMarker(s, i, interrupts)
  {
    PeekOver(pre, s, i);
    PeekOver(pre, s, i + 1);
    NonspaceAtOver(pre, s, i + 1, 0, 0);
    PeekOver(pre, s, Nonspace(s, i + 1, 0).0);
  }

  lemma NumberOver(pre: string, s: string, i: nat, interrupts: bool)
    requires Digit(Peek(s, i))
    ensures ListMarker(pre + s, i + |pre|, interrupts) == ListMarker(s, i, interrupts)
  {
    PeekOver(pre, s, i);
    DigitsOver(pre, s, i, 9, 0);
    var end := Digits(s, i, 9, 0).0;
    PeekOver(pre, s, end);
    PeekOver(pre, s, end + 1);
    NothingFollowsOver(pre, s, end + 1);
  }

  lemma ListMarkerOver(pre: string, s: string, i: nat, interrupts: bool)
    ensures ListMarker(pre + s, i + |pre|, interrupts) == ListMarker(s, i, interrupts)
  {
    if Digit(Peek(s, i)) {
      NumberOver(pre, s, i, interrupts);
    } else {
      BulletOver(pre, s, i, interrupts);
    }
  }

  // ---------- prefixes and choices ----------

  // A document, a block quote and an item hold the same blocks and are no paragraph and no list.
  predicate SameRole(a: Kind, b: Kind) {
    a == b || (a == Document && (b == BlockQuote || b == Item))
  }

  /** Behind the prefix a line starts the same block where no tab stands among its marks or the prefix is whole tab stops wide. */
  lemma ChoiceOver(scan: Scanners, pre: string, s: string, kind: Kind, inner: Kind, c: Cursor, d: Cursor, allMatched: bool, maybeLazy: bool)
    requires Local(scan) && Apart(pre, s, c, d) && SameRole(kind, inner)
    ensures ChoiceAt(scan, pre + s, inner, d, allMatched, maybeLazy) == ChoiceAt(scan, s, kind, c, allMatched, maybeLazy)
  {
    var at := Nonspace(s, c.offset, c.column).0;
    IndentOver(pre, s, c, d);
    ScanBreakOver(pre, s, at);
    ListMarkerOver(pre, s, at, kind == Paragraph);
    assert LocalAt(scan, pre, s, at);
  }

  lemma {:induction false} SkipColumnsOver(pre: string, s: string, c: Cursor, d: Cursor, n: nat)
    requires Apart(pre, s, c, d)
    ensures Apart(pre, s, SkipColumns(s, c, n), SkipColumns(pre + s, d, n))
    decreases n
  {
    PeekOver(pre, s, c.offset);
    if n > 0 && SpaceOrTab(Peek(s, c.offset)) {
      ColumnsOver(pre, s, c, d, 1);
      SkipColumnsOver(pre, s, Advance(s, c, 1, true), Advance(pre + s, d, 1, true), n - 1);
    }
  }

  // The same match, behind which columns may be measured if anything follows.
  predicate SameMatch(pre: string, s: string, m: Match, n: Match) {
    && m.matched == n.matched && m.closes == n.closes && Near(pre, m.cursor, n.cursor)
    && (!m.closes ==> Apart(pre, s, m.cursor, n.cursor))
  }

  lemma IndentMatchOver(pre: string, s: string, c: Cursor, d: Cursor, width: nat, hasChild: bool)
    requires Apart(pre, s, c, d)
    ensures SameMatch(pre, s, IndentMatch(s, c, width, hasChild), IndentMatch(pre + s, d, width, hasChild))
  {
    IndentOver(pre, s, c, d);
    ToNonspaceOver(pre, s, c, d);
    if Nonspace(s, c.offset, c.column).1 - c.column >= width {
      ColumnsOver(pre, s, c, d, width);
    }
  }

  lemma CodeOver(scan: Scanners, fence: Fence, pre: string, s: string, c: Cursor, d: Cursor)
    requires Local(scan) && Apart(pre, s, c, d)
    ensures SameMatch(pre, s, CodeMatch(scan, fence, s, c), CodeMatch(scan, fence, pre + s, d))
  {
    var (at, column) := Nonspace(s, c.offset, c.column);
    IndentOver(pre, s, c, d);
    assert LocalAt(scan, pre, s, at);
    IndentMatchOver(pre, s, c, d, 4, true);
    BytesOver(pre, s, c, d, FenceEnd(scan, fence, s, column - c.column, at));
    SkipColumnsOver(pre, s, c, d, fence.offset);
  }

  lemma PrefixedOver(scan: Scanners, f: Frame, pre: string, s: string, c: Cursor, d: Cursor)
    requires Local(scan) && Apart(pre, s, c, d)
    ensures SameMatch(pre, s, Prefixed(scan, f, s, c), Prefixed(scan, f, pre + s, d))
  {
    var (at, column) := Nonspace(s, c.offset, c.column);
    IndentOver(pre, s, c, d);
    match f.kind
    case BlockQuote =>
      if Peek(s, at) == '>' {
        BehindMarkerOver(pre, s, at, column, Nonspace(pre + s, d.offset, d.column).1);
      }
    case Item => IndentMatchOver(pre, s, c, d, f.list.markerOffset + f.list.padding, f.children > 0);
    case CodeBlock => CodeOver(scan, f.fence, pre, s, c, d);
    case _ =>
  }
}
