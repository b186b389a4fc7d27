/** Tabs and the container rules of sections 5.1 and 5.2 of the GitHub Flavored Markdown Spec: a tab in the indent is as wide as it
    takes to the next stop, and so not as wide behind a prefix. */
module TabLaw {

  import opened Common
  import opened BlockScan
  import opened BlockTree
  import opened BlockLines
  import opened BlockLaws
  import opened Columns
  import opened LineCursor
  import opened LineShift
  import opened NestLaw
  import opened QuoteLaw
  import opened ItemLaw

  // ---------- tabs ----------

  const TAB := "\tx"

  lemma TabIndents(s: string)
    requires s == Ended(TAB)
    ensures Nonspace(s, 0, 0) == (1, 4) && PastIndent(s, START) == Cursor(1, 4, false) && |s| == 3
  {
    assert s == "\tx\n";
    assert Nonspace(s, 1, 4) == (1, 4);
    assert Advance(s, Cursor(1, 4, false), 0, true) == Cursor(1, 4, false);
  }

  lemma TurnBy(rules: Rules, scan: Scanners, s: string, o: Opening, chosen: Start)
    requires Follows(rules, scan, s) && chosen == ChoiceAt(scan, s, Last(o.frames).kind, o.cursor, true, false)
    ensures var (frames, cursor) := Begun(scan, chosen, o.frames, s, o.cursor);
            rules.turn(o, true, false) == Opening(frames, cursor, o.begun || (chosen != NoStart && chosen != Setext),
                                                  chosen != NoStart && !AcceptsLines(Last(frames).kind))
  {
    AskTurn(rules, scan, s, o, true, false);
    AskChoice(rules, scan, s, Last(o.frames).kind, o.cursor, true, false);
    AskBegin(rules, scan, s, chosen, o.frames, o.cursor);
  }

  lemma TabAlone(scan: Scanners, rules: Rules, s: string)
    requires s == Ended(TAB) && SilentAt(scan, s, 1) && Follows(rules, scan, s)
    ensures Last(Line(rules, [New(Document)], START)).kind == CodeBlock
  {
    var o := Opening([New(Document)], START, false, true);
    TabIndents(s);
    TurnBy(rules, scan, s, o, Indented);
    var next := rules.turn(o, true, false);
    assert next.cursor == Cursor(1, 4, false) && Last(next.frames) == New(CodeBlock) && !next.more && rules.size == 3;
    assert AllOpened(rules, next, true, false) == next;
    var end := LineOfDocument(rules, scan, s);
    assert end == next;
  }

  lemma TabBehindMarker(scan: Scanners, rules: Rules, s: string)
    requires s == Ended(Quoted(TAB)) && SilentAt(scan, s, 3) && Follows(rules, scan, s)
    ensures Last(Line(rules, [New(Document)], START)).kind == Paragraph
  {
    QuotedTab(scan, s);
    MarkerPrefix(scan, Ended(TAB), New(BlockQuote));
    var o := Opening([New(Document)], START, false, true);
    TurnBy(rules, scan, s, o, Quote);
    var next := rules.turn(o, true, false);
    assert Last(next.frames) == New(BlockQuote) && next.cursor == BEHIND && next.more;
    TurnBy(rules, scan, s, next, NoStart);
    assert rules.turn(next, true, false) == next.(more := false);
    var end := LineOfDocument(rules, scan, s);
    assert end == next.(more := false);
  }

  // Behind the marker the same tab is only two columns wide.
  lemma QuotedTab(scan: Scanners, s: string)
    requires s == Ended(Quoted(TAB)) && SilentAt(scan, s, 3)
    ensures Nonspace(s, 2, 2) == (3, 4) && !BlankAt(s, BEHIND) && |s| == 5
    ensures ChoiceAt(scan, s, BlockQuote, BEHIND, true, false) == NoStart
  {
    assert s == "> \tx\n";
    assert Nonspace(s, 3, 4) == (3, 4);
  }

  /** With a tab the law fails: alone it makes indented code, behind the marker it is too narrow for that. */
  lemma TabBreaksQuote(scan: Scanners)
    requires SilentAt(scan, Ended(TAB), 1) && SilentAt(scan, Ended(Quoted(TAB)), 3)
    ensures Last(Run(scan, [TAB])).kind == CodeBlock && Last(Run(scan, [Quoted(TAB)])).kind == Paragraph
  {
    var (s, q) := (Ended(TAB), Ended(Quoted(TAB)));
    TabAlone(scan, RulesOf(scan, s), s);
    TabBehindMarker(scan, RulesOf(scan, q), q);
    assert [TAB][..0] == [] && [Quoted(TAB)][..0] == [];
    TabStart();
  }

  lemma TabStart()
    ensures TextStart(Ended(TAB), 0) == 0 && TextStart(Ended(Quoted(TAB)), 0) == 0
  {
    assert Ended(TAB) == "\tx\n" && Ended(Quoted(TAB)) == "> \tx\n";
    assert Ended(TAB)[..3][0] == '\t' && Ended(Quoted(TAB))[..3][0] == '>';
  }

  // ---------- open items that need a wide indent ----------

  predicate Reached(s: string, c: Cursor, width: nat) {
    Nonspace(s, c.offset, c.column).1 - c.column >= width
  }

  function ItemWidth(f: Frame): nat {
    f.list.markerOffset + f.list.padding
  }

  // From i on, items in lists, each in the one before, whose contents begin this many columns further on; the last is empty.
  predicate Ladder(fs: Chain, i: nat, width: nat)
    decreases |fs| - i
  {
    && i + 1 < |fs| && fs[i].kind == List && fs[i + 1].kind == Item && ItemWidth(fs[i + 1]) > 0
    && if i + 2 == |fs| then fs[i + 1].children == 0 && width == ItemWidth(fs[i + 1])
       else fs[i + 1].children > 0 && width > ItemWidth(fs[i + 1]) && Ladder(fs, i + 2, width - ItemWidth(fs[i + 1]))
  }

  lemma {:induction false} LadderEnds(fs: Chain, i: nat, width: nat)
    requires Ladder(fs, i, width)
    ensures |fs| > i + 1 && Last(fs).kind == Item
    decreases |fs| - i
  {
    if i + 2 < |fs| {
      LadderEnds(fs, i + 2, width - ItemWidth(fs[i + 1]));
    }
  }

  // Where the cursor stands behind the prefix of an item that goes on.
  lemma PastItem(scan: Scanners, f: Frame, s: string, c: Cursor)
    requires f.kind == Item && c.offset <= |s|
    ensures var (m, (at, column)) := (Prefixed(scan, f, s, c), Nonspace(s, c.offset, c.column));
            && !m.closes && m.cursor.offset <= |s| && Nonspace(s, m.cursor.offset, m.cursor.column) == (at, column)
            && (m.matched <==> Reached(s, c, ItemWidth(f)) || (f.children > 0 && LineEnd(Peek(s, at))))
            && (if Reached(s, c, ItemWidth(f)) then m.cursor.column == c.column + ItemWidth(f)
                else m.cursor.column == if m.matched then column else c.column)
  {
    var (at, column) := Nonspace(s, c.offset, c.column);
    BytesOrColumns(s, c);
    if Reached(s, c, ItemWidth(f)) {
      AdvanceWithin(s, c, ItemWidth(f));
    }
  }

  /** All the items go on exactly if the indent reaches the content of the last; a blank line goes on with all but an empty one. */
  lemma {:induction false} MetLadder(rules: Rules, scan: Scanners, s: string, fs: Chain, i: nat, c: Cursor, width: nat)
    requires Follows(rules, scan, s) && Ladder(fs, i, width) && c.offset <= |s|
    ensures var (n, closes, d) := Met(rules, fs, i, c);
            && i <= n <= |fs| && !closes && (n == |fs| <==> Reached(s, c, width))
            && Nonspace(s, d.offset, d.column) == Nonspace(s, c.offset, c.column)
    decreases |fs| - i
  {
    var f := fs[i + 1];
    AskPrefix(rules, scan, s, fs[i], c);
    AskPrefix(rules, scan, s, f, c);
    PastItem(scan, f, s, c);
    var m := rules.prefix(f, c);
    assert Met(rules, fs, i, c) == Met(rules, fs, i + 1, c);
    if m.matched && i + 2 < |fs| {
      MetLadder(rules, scan, s, fs, i + 2, m.cursor, width - ItemWidth(f));
    }
  }

  lemma {:induction false} LadderIn(h: Shell, fs: Chain, i: nat, width: nat)
    requires i > 0 && Ladder(fs, i, width)
    ensures Ladder(Nest(h, fs), i + |h.outer|, width)
    decreases |fs| - i
  {
    var gs := Nest(h, fs);
    assert gs[i + |h.outer|] == fs[i] && gs[i + 1 + |h.outer|] == fs[i + 1];
    if i + 2 < |fs| {
      LadderIn(h, fs, i + 2, width - ItemWidth(fs[i + 1]));
    }
  }

  // ---------- a line without marks adds no item ----------

  // There is no quote and no list marker at the first non-space.
  predicate Unmarked(s: string, c: Cursor) {
    var at := Nonspace(s, c.offset, c.column).0;
    Peek(s, at) != '>' && !ListMarker(s, at, false).Marker?
  }

  // There is an item at p, or there is none from p on.
  predicate Carries(fs: Chain, p: nat, item: bool) {
    if item then p < |fs| && fs[p].kind == Item else forall j | p <= j < |fs| :: fs[j].kind != Item
  }

  lemma {:induction false} CarryRoom(scan: Scanners, fs: Chain, kind: Kind, p: nat, item: bool)
    requires Carries(fs, p, item) && kind != Item && kind != Document
    ensures Carries(Room(scan, fs, kind), p, item)
    decreases |fs|
  {
    if |fs| > 1 && !CanContain(Last(fs).kind, kind) {
      CarryRoom(scan, Closed(scan, fs), kind, p, item);
    }
  }

  lemma CarryWith(scan: Scanners, fs: Chain, f: Frame, p: nat, item: bool)
    requires Carries(fs, p, item) && f.kind != Item && f.kind != Document
    ensures Carries(With(scan, fs, f), p, item)
  {
    CarryRoom(scan, fs, f.kind, p, item);
  }

  lemma CarryBegun(scan: Scanners, chosen: Start, fs: Chain, s: string, c: Cursor, p: nat, item: bool)
    requires Carries(fs, p, item) && Unmarked(s, c) && Sensible(chosen, s, c, fs) && s != "" && LineEnd(s[|s| - 1])
    ensures var (gs, d) := Begun(scan, chosen, fs, s, c);
            Carries(gs, p, item) && (GoesOn(chosen, gs) ==> Unmarked(s, d))
  {
    match chosen
    case NoStart =>
    case Quote =>
    case Bullet(_) =>
    case Atx(_) => CarryWith(scan, fs, New(Heading), p, item);
    case CodeFence(length) => CarryWith(scan, fs, New(CodeBlock).(fence := FenceAt(s, c, length)), p, item);
    case Html(htmlType) => CarryWith(scan, fs, New(HtmlBlock).(htmlType := htmlType), p, item);
    case Setext =>
    case Rule =>
      CarryWith(scan, fs, New(ThematicBreak), p, item);
      UnmarkedEnd(s, c);
    case Indented => CarryWith(scan, fs, New(CodeBlock), p, item);
  }

  // Nothing begins at the end of a line.
  lemma UnmarkedEnd(s: string, c: Cursor)
    requires s != "" && LineEnd(s[|s| - 1])
    ensures Unmarked(s, BeforeEnd(s, c))
  {
    if |s| - 1 > c.offset {
      StopsAtEnd(s, c, |s| - 1 - c.offset);
    }
  }

  lemma {:induction false} StopsAtEnd(s: string, c: Cursor, count: nat)
    requires c.offset + count + 1 == |s| && LineEnd(s[|s| - 1])
    ensures var d := Advance(s, c, count, false); LineEnd(Peek(s, d.offset)) || Peek(s, d.offset) == '\0'
    decreases count
  {
    if count > 0 && More(s, c) {
      StopsAtEnd(s, Move(s, c, count, false).0, count - 1);
    }
  }

  lemma CarryTurn(rules: Rules, scan: Scanners, s: string, o: Opening, all: bool, lazy: bool, p: nat, item: bool)
    requires Follows(rules, scan, s) && Carries(o.frames, p, item) && Unmarked(s, o.cursor) && s != "" && LineEnd(s[|s| - 1])
    ensures var next := rules.turn(o, all, lazy); Carries(next.frames, p, item) && (next.more ==> Unmarked(s, next.cursor))
  {
    var kind := Last(o.frames).kind;
    AskTurn(rules, scan, s, o, all, lazy);
    AskChoice(rules, scan, s, kind, o.cursor, all, lazy);
    ChoiceSensible(scan, s, o.cursor, o.frames, all, lazy);
    var chosen := rules.choose(kind, o.cursor, all, lazy);
    AskBegin(rules, scan, s, chosen, o.frames, o.cursor);
    CarryBegun(scan, chosen, o.frames, s, o.cursor, p, item);
  }

  lemma {:induction false} CarryOpened(rules: Rules, scan: Scanners, s: string, o: Opening, all: bool, lazy: bool, p: nat, item: bool)
    requires Follows(rules, scan, s) && Carries(o.frames, p, item) && (o.more ==> Unmarked(s, o.cursor))
    requires s != "" && LineEnd(s[|s| - 1])
    ensures Carries(AllOpened(rules, o, all, lazy).frames, p, item)
    decreases rules.size - o.cursor.offset
  {
    var kind := Last(o.frames).kind;
    if o.more && kind != CodeBlock && kind != HtmlBlock {
      CarryTurn(rules, scan, s, o, all, lazy, p, item);
      var next := rules.turn(o, all, lazy);
      if o.cursor.offset < next.cursor.offset <= rules.size {
        CarryOpened(rules, scan, s, next, all, false, p, item);
      }
    }
  }

  lemma CarryFilled(scan: Scanners, fs: Chain, s: string, c: Cursor, p: nat, item: bool)
    requires Carries(fs, p, item)
    ensures Carries(Filled(scan, fs, s, c), p, item)
  {
    var kind := Last(fs).kind;
    if kind != CodeBlock && kind != HtmlBlock && !BlankAt(s, c) && !AcceptsLines(kind) {
      CarryWith(scan, fs, NewParagraph(Rest(s, Behind(s, c, 0))), p, item);
    }
  }

  lemma CarryContinued(rules: Rules, scan: Scanners, s: string, fs: Chain, n: nat, c: Cursor, item: bool)
    requires Follows(rules, scan, s) && Unmarked(s, c) && s != "" && LineEnd(s[|s| - 1])
    requires Last(fs).kind == Item && 0 < n <= |fs| && (item <==> n == |fs|)
    ensures Carries(Continued(rules, fs, n, c), |fs| - 1, item)
  {
    var o := Opening(fs[..n], c, false, true);
    assert n == |fs| ==> fs[..n] == fs;
    CarryOpened(rules, scan, s, o, n == |fs|, false, |fs| - 1, item);
    var end := AllOpened(rules, o, n == |fs|, false);
    AskFreed(rules, scan, s, Last(fs));
    AskFill(rules, scan, s, end.frames, end.cursor);
    CarryFilled(scan, end.frames, s, end.cursor, |fs| - 1, item);
  }

  /** A line without marks leaves the last of the items open exactly if its indent reaches the content of that item. */
  lemma CarryLine(rules: Rules, scan: Scanners, s: string, fs: Chain, i: nat, c: Cursor, width: nat)
    requires Follows(rules, scan, s) && s != "" && LineEnd(s[|s| - 1]) && Unmarked(s, c) && c.offset <= |s|
    requires i > 0 && Ladder(fs, i, width) && Met(rules, fs, 1, START) == Met(rules, fs, i, c)
    ensures Carries(Line(rules, fs, START), |fs| - 1, Reached(s, c, width))
  {
    LadderEnds(fs, i, width);
    MetLadder(rules, scan, s, fs, i, c, width);
    var (n, closes, d) := Met(rules, fs, i, c);
    CarryContinued(rules, scan, s, fs, n, d, Reached(s, c, width));
  }

  lemma UnmarkedOver(pre: string, s: string, c: Cursor, d: Cursor)
    requires d.offset == c.offset + |pre| && Unmarked(s, c)
    ensures Unmarked(pre + s, d)
  {
    var at := Nonspace(s, c.offset, c.column).0;
    NonspaceAtOver(pre, s, c.offset, c.column, d.column);
    PeekOver(pre, s, at);
    ListMarkerOver(pre, s, at, false);
  }

  /** If only one of the two lines reaches the last item, they leave different blocks. */
  lemma OneReaches(rules: Rules, behind: Rules, scan: Scanners, pre: string, s: string, h: Shell, fs: Chain, e: Cursor, width: nat)
    requires Pair(rules, behind, scan, pre, s) && Taken(behind, h, fs, e) && e.offset == |pre|
    requires Ladder(fs, 1, width) && Unmarked(s, START) && Reached(s, START, width) != Reached(pre + s, e, width)
    ensures Nest(h, Line(rules, fs, START)) != Line(behind, Nest(h, fs), START)
  {
    var (after, afterBehind) := (Line(rules, fs, START), Line(behind, Nest(h, fs), START));
    LadderIn(h, fs, 1, width);
    UnmarkedOver(pre, s, START, e);
    CarryLine(rules, scan, s, fs, 1, START, width);
    CarryLine(behind, scan, pre + s, Nest(h, fs), 1 + |h.outer|, e, width);
    OneCarries(h, after, afterBehind, |fs| - 1, Reached(s, START, width));
  }

  lemma OneCarries(h: Shell, after: Chain, behind: Chain, p: nat, item: bool)
    requires p > 0 && Carries(after, p, item) && Carries(behind, p + |h.outer|, !item)
    ensures Nest(h, after) != behind
  {
    assert p < |after| ==> Nest(h, after)[p + |h.outer|] == after[p];
  }

  // ---------- runs that leave such items ----------

  // No scanner matches at a line ending or at a list marker, as none of those in scanners.c does outside a paragraph.
  ghost predicate Sober(scan: Scanners) {
    Quiet(scan) && forall s, i: nat :: SoberAt(scan, s, i)
  }

  ghost predicate SoberAt(scan: Scanners, s: string, i: nat) {
    ListMarker(s, i, false).Marker? ==> SilentAt(scan, s, i)
  }

  const PLUS := ListData(false, '+', false, 0, 0, 0)

  // Bullets in one line, the last without text: items whose content begins this many columns in.
  function Bullets(width: nat): (line: string)
    ensures line != "" && line[0] == '+' && '\t' !in line
  {
    if width < 4 then "+" else if width == 5 then "+  +" else "+ " + Bullets(width - 2)
  }

  lemma BulletsPlain(width: nat)
    ensures Plain(Bullets(width), 0)
  {
    var s := Ended(Bullets(width));
    assert forall k | 0 <= k < |s| :: s[k] != '\t';
    assert |s| >= 3 ==> s[..3][0] == '+' && BYTE_ORDER_MARK[0] != '+';
  }

  // A document of one line that leaves such items, looked up on demand.
  ghost predicate Rungs(scan: Scanners, line: string, width: nat) {
    forall fs: Chain {:trigger RungsAsked(fs)} :: RungsAsked(fs) && fs == Processed(scan, [New(Document)], line, 0) ==>
      Rooted(fs) && fs[0].children > 0 && Ladder(fs, 1, width)
  }

  predicate RungsAsked(fs: Chain) {
    true
  }

  // The empty item of a bullet alone.
  lemma OneBullet(scan: Scanners)
    requires Sober(scan)
    ensures Rungs(scan, "+", 2)
  {
    var (s, item) := (Ended("+"), PLUS.(padding := 2));
    var rules := RulesOf(scan, s);
    var fs: Chain := [New(Document)];
    var o := Opening(fs, START, false, true);
    assert s == "+\n" && SoberAt(scan, s, 0) && ScanBreak(s, 0).0 == 0;
    BulletHead(s);
    NewItem(scan, item);
    TurnBy(rules, scan, s, o, Bullet(Marker(1, PLUS)));
    var next := rules.turn(o, true, false);
    assert next == Opening(Nest(ItemShell(item), fs), Cursor(1, 1, false), true, true);
    BlankTurn(rules, scan, s, next, true, false);
    assert AllOpened(rules, next, true, false) == next.(more := false);
    assert AllOpened(rules, o, true, false) == next.(more := false);
    var end := LineOfDocument(rules, scan, s);
    assert Filled(scan, end.frames, s, end.cursor) == end.frames;
    BulletStart();
  }

  lemma BulletStart()
    ensures TextStart(Ended("+"), 0) == 0
  {
    assert Ended("+") == "+\n";
  }

  lemma BulletHead(s: string)
    requires s == "+\n"
    ensures ListMarker(s, 0, false) == Marker(1, PLUS) && Nonspace(s, 0, 0) == (0, 0) && Nonspace(s, 1, 1) == (1, 1)
    ensures ItemAt(s, START, 1, PLUS) == (PLUS.(padding := 2), Cursor(1, 1, false)) && BlankAt(s, Cursor(1, 1, false))
  {
  }

  // Before a bullet any marker starts an item: the two are no thematic break.
  lemma StartsBefore(scan: Scanners, m: string, data: ListData, n: nat, line: string)
    requires Sober(scan) && MarkerText(m, data) && 1 <= n <= 4 && line != "" && line[0] == '+'
    ensures StartsItem(scan, m, data, n, line)
  {
    var q := Ended(m + Spaces(n) + line);
    HeadStart(m, data, n, line);
    MarkerGoesOn(m, data, Spaces(n - 1) + Ended(line));
    assert Spaces(n) == " " + Spaces(n - 1);
    assert q == m + " " + (Spaces(n - 1) + Ended(line));
    assert SoberAt(scan, q, 0);
    BreakStops(q, m, data, n);
  }

  lemma BreakStops(q: string, m: string, data: ListData, n: nat)
    requires MarkerText(m, data) && |q| > |m| + n && q[0] == m[0] && q[|m| + n] == '+'
    requires forall k | |m| <= k < |m| + n :: q[k] == ' '
    ensures ScanBreak(q, 0).0 == 0
  {
    if m[0] == '*' || m[0] == '-' {
      assert |m| == 1;
      RunStops(q, 1, m[0], n);
    }
  }

  lemma {:induction false} RunStops(q: string, i: nat, mark: char, n: nat)
    requires i + n < |q| && q[i + n] == '+' && mark != '+' && mark != ' ' && forall k | i <= k < i + n :: q[k] == ' '
    ensures MarkRun(q, i, mark, 1) == (i + n, 1)
    decreases n
  {
    if n > 0 {
      RunStops(q, i + 1, mark, n - 1);
    }
  }

  // A bullet before the line puts its items into one more.
  lemma MoreBullets(scan: Scanners, n: nat, rest: string, width: nat)
    requires Local(scan) && Sober(scan) && 1 <= n <= 4 && rest != "" && rest[0] == '+' && Plain(rest, 0)
    requires Rungs(scan, rest, width) && width > 0
    ensures Rungs(scan, "+" + Spaces(n) + rest, width + 1 + n)
  {
    var fs := Processed(scan, [New(Document)], rest, 0);
    var h := ItemShell(ItemOf("+", PLUS, n));
    var _ := RungsAsked(fs);
    assert MarkerText("+", PLUS);
    StartsBefore(scan, "+", PLUS, n, rest);
    ItemFirst(scan, "+", PLUS, n, rest);
    OneRungMore(h, fs, 1 + n, width);
  }

  lemma OneRungMore(h: Shell, fs: Chain, wide: nat, width: nat)
    requires ItemIn(h, wide) && fs[0].children > 0 && Ladder(fs, 1, width) && width > 0
    ensures Ladder(Nest(h, fs), 1, width + wide)
  {
    var gs := Nest(h, fs);
    LadderIn(h, fs, 1, width);
    assert gs[1] == h.outer[1] && gs[2] == h.inner.(children := fs[0].children);
  }

  // The spaces behind the first bullet.
  lemma FirstBullet(width: nat) returns (n: nat)
    requires width >= 4
    ensures 1 <= n <= 2 && width - 1 - n >= 2 && width - 1 - n != 3 && Bullets(width) == "+" + Spaces(n) + Bullets(width - 1 - n)
  {
    n := if width == 5 then 2 else 1;
    assert Spaces(1) == " " && Spaces(2) == "  ";
  }

  // The items of a line of bullets.
  lemma {:induction false} BulletLadder(scan: Scanners, width: nat)
    requires Local(scan) && Sober(scan) && width >= 2 && width != 3
    ensures Rungs(scan, Bullets(width), width)
    decreases width
  {
    if width < 4 {
      assert Bullets(width) == "+" && width == 2;
      OneBullet(scan);
    } else {
      var n := FirstBullet(width);
      BulletLadder(scan, width - 1 - n);
      BulletsPlain(width - 1 - n);
      MoreBullets(scan, n, Bullets(width - 1 - n), width - 1 - n);
    }
  }

  lemma BulletRun(scan: Scanners, width: nat)
    requires Local(scan) && Sober(scan) && width >= 4
    ensures Rooted(Run(scan, [Bullets(width)])) && Ladder(Run(scan, [Bullets(width)]), 1, width)
  {
    BulletLadder(scan, width);
    var _ := RungsAsked(Processed(scan, [New(Document)], Bullets(width), 0));
    RunMore(scan, [], Bullets(width));
    assert [] + [Bullets(width)] == [Bullets(width)];
  }

  // ---------- the rules hold exactly without tabs ----------

  // A line that begins with no quote and no list marker.
  predicate Markless(line: string) {
    Lead(Ended(line), 0) == Nonspace(Ended(line), 0, 0).0
  }

  lemma MarklessUnmarked(line: string)
    requires Markless(line)
    ensures Unmarked(Ended(line), START)
  {
    var s := Ended(line);
    var at := Nonspace(s, 0, 0).0;
    LeadBehind(s, 0, 0, at);
  }

  // A tab reaches the first stop.
  lemma {:induction false} TabReaches(s: string, offset: nat, column: nat, k: nat)
    requires offset <= k < Nonspace(s, offset, column).0 && Peek(s, k) == '\t'
    ensures Nonspace(s, offset, column).1 >= 4
    decreases k - offset
  {
    if offset < k {
      TabReaches(s, offset + 1, Past(s[offset], column), k);
    }
  }

  // The wider of the two indents.
  function Wider(pre: string, s: string): nat {
    var (alone, behind) := (Nonspace(s, 0, 0).1, Nonspace(pre + s, |pre|, |pre|).1 - |pre|);
    if alone > behind then alone else behind
  }

  lemma WiderReached(pre: string, s: string)
    requires |pre| % 4 != 0 && exists k :: 0 <= k < Nonspace(s, 0, 0).0 && Peek(s, k) == '\t'
    ensures Wider(pre, s) >= 4
    ensures Reached(s, START, Wider(pre, s)) != Reached(pre + s, Cursor(|pre|, |pre|, false), Wider(pre, s))
  {
    var k :| 0 <= k < Nonspace(s, 0, 0).0 && Peek(s, k) == '\t';
    TabReaches(s, 0, 0, k);
    NonspaceOver(pre, s, 0, 0);
  }

  // A tab in the indent.
  ghost predicate TabIndented(line: string) {
    var s := Ended(line);
    exists k :: 0 <= k < Nonspace(s, 0, 0).0 && Peek(s, k) == '\t'
  }

  lemma UntabbedOrNot(line: string)
    requires Markless(line)
    ensures Untabbed(Ended(line), 0) <==> !TabIndented(line)
  {
  }

  // A container whose width is no whole number of tab stops treats the line differently behind a line of bullets.
  lemma TabDiffers(scan: Scanners, h: Shell, pre: string, line: string, lineNumber: nat, width: nat)
    requires Local(scan) && Sober(scan) && Markless(line) && TabIndented(line) && lineNumber > 0
    requires pre != "" && pre[|pre| - 1] == ' ' && |pre| % 4 != 0 && width == Wider(pre, Ended(line))
    requires Taken(RulesOf(scan, Ended(pre + line)), h, Run(scan, [Bullets(width)]), Cursor(|pre|, |pre|, false))
    ensures var fs := Run(scan, [Bullets(width)]);
            Processed(scan, Nest(h, fs), pre + line, lineNumber) != Nest(h, Processed(scan, fs, line, lineNumber))
  {
    var (s, fs) := (Ended(line), Run(scan, [Bullets(width)]));
    LinePair(scan, pre, line);
    WiderReached(pre, s);
    BulletRun(scan, width);
    MarklessUnmarked(line);
    OneReaches(RulesOf(scan, s), RulesOf(scan, Ended(pre + line)), scan, pre, s, h, fs, Cursor(|pre|, |pre|, false), width);
  }

  lemma TabBreaksQuotedRun(scan: Scanners, line: string, width: nat)
    requires Local(scan) && Sober(scan) && Markless(line) && TabIndented(line) && width == Wider(MARKER, Ended(line))
    ensures !InQuote(scan, [Bullets(width), line], {})
  {
    var (before, d, s) := ([Bullets(width)], New(Document).(children := 1), Ended(line));
    var fs := Run(scan, before);
    QuotedStart(line, 1);
    QuoteTakes(RulesOf(scan, Ended(Quoted(line))), scan, s, d, fs);
    TabDiffers(scan, QuoteIn(d), MARKER, line, 1, width);
    assert before + [line] == [Bullets(width), line];
    BulletsPlain(width);
    OneInQuote(scan, Bullets(width), {});
    QuotedMore(before, line, {});
    RunMore(scan, before, line);
    RunMore(scan, AllQuoted(before, {}), Quoted(line));
  }

  lemma QuoteHoldsBehind(scan: Scanners, before: seq<string>, line: string)
    requires Local(scan) && Untabbed(Ended(line), 0) && before != [] && Quotable(scan, before, {})
    ensures InQuote(scan, before + [line], {})
  {
    QuotedRun(scan, before, {});
    MoreInQuote(scan, before, line, {});
  }

  lemma BulletsQuotable(scan: Scanners, width: nat)
    ensures Quotable(scan, [Bullets(width)], {})
  {
    BulletsPlain(width);
    assert [Bullets(width)][..0] == [];
  }

  /** Section 5.1 for one more line that begins with no marker: the law holds behind all lines exactly if no tab stands in the
      indent of that line. */
  lemma QuoteExact(scan: Scanners, line: string)
    requires Local(scan) && Sober(scan) && Markless(line)
    ensures Untabbed(Ended(line), 0) <==>
            forall before | before != [] && Quotable(scan, before, {}) :: InQuote(scan, before + [line], {})
  {
    if Untabbed(Ended(line), 0) {
      forall before | before != [] && Quotable(scan, before, {}) ensures InQuote(scan, before + [line], {}) {
        QuoteHoldsBehind(scan, before, line);
      }
    } else {
      var width := Wider(MARKER, Ended(line));
      UntabbedOrNot(line);
      BulletsQuotable(scan, width);
      TabBreaksQuotedRun(scan, line, width);
      assert [Bullets(width)] + [line] == [Bullets(width), line];
    }
  }

  // One more line that an item treats differently.
  lemma NotInItem(scan: Scanners, m: string, data: ListData, n: nat, before: seq<string>, line: string)
    requires before != [] && InItem(scan, m, data, n, before, {})
    requires var (h, fs) := (ItemShell(ItemOf(m, data, n)), Run(scan, before));
             Processed(scan, Nest(h, fs), Spaces(|m| + n) + line, |before|) != Nest(h, Processed(scan, fs, line, |before|))
    ensures !InItem(scan, m, data, n, before + [line], {})
  {
    ItemizedMore(m, n, before, line, {});
    RunMore(scan, before, line);
    RunMore(scan, Itemized(m, n, before, {}), Spaces(|m| + n) + line);
  }

  lemma TabInItem(scan: Scanners, item: ListData, pre: string, line: string, width: nat)
    requires Local(scan) && Sober(scan) && pre == Spaces(item.padding) && item.markerOffset == 0 && item.padding % 4 != 0
    requires Markless(line) && TabIndented(line) && width == Wider(pre, Ended(line))
    ensures var (h, fs) := (ItemShell(item), Run(scan, [Bullets(width)]));
            Processed(scan, Nest(h, fs), pre + line, 1) != Nest(h, Processed(scan, fs, line, 1))
  {
    var h := ItemShell(item);
    IndentedStart(item.padding, line, 1);
    ItemTakes(RulesOf(scan, Ended(pre + line)), scan, Ended(line), h, Run(scan, [Bullets(width)]), item.padding);
    TabDiffers(scan, h, pre, line, 1, width);
  }

  lemma BulletsInItem(scan: Scanners, m: string, data: ListData, n: nat, width: nat)
    requires Local(scan) && Sober(scan) && MarkerText(m, data) && 1 <= n <= 4
    ensures InItem(scan, m, data, n, [Bullets(width)], {})
  {
    BulletsPlain(width);
    StartsBefore(scan, m, data, n, Bullets(width));
    OneInItem(scan, m, data, n, Bullets(width), {});
  }

  lemma TabBreaksItemRun(scan: Scanners, m: string, data: ListData, n: nat, line: string, width: nat)
    requires Local(scan) && Sober(scan) && (|m| + n) % 4 != 0 && InItem(scan, m, data, n, [Bullets(width)], {})
    requires Markless(line) && TabIndented(line) && width == Wider(Spaces(|m| + n), Ended(line))
    ensures !InItem(scan, m, data, n, [Bullets(width), line], {})
  {
    TabInItem(scan, ItemOf(m, data, n), Spaces(|m| + n), line, width);
    NotInItem(scan, m, data, n, [Bullets(width)], line);
    assert [Bullets(width)] + [line] == [Bullets(width), line];
  }

  // Lines that an item may hold.
  ghost predicate Itemizes(scan: Scanners, m: string, data: ListData, n: nat, lines: seq<string>) {
    lines != [] && Itemizable(scan, |m| + n, lines, {}) && StartsItem(scan, m, data, n, lines[0])
  }

  lemma ItemHoldsBehind(scan: Scanners, m: string, data: ListData, n: nat, before: seq<string>, line: string)
    requires Local(scan) && n > 0 && ((|m| + n) % 4 == 0 || Untabbed(Ended(line), 0)) && Itemizes(scan, m, data, n, before)
    ensures InItem(scan, m, data, n, before + [line], {})
  {
    ItemRun(scan, m, data, n, before, {});
    MoreInItem(scan, m, data, n, before, line, {});
  }

  lemma BulletsItemizable(scan: Scanners, m: string, data: ListData, n: nat, width: nat)
    requires Sober(scan) && MarkerText(m, data) && 1 <= n <= 4
    ensures Itemizes(scan, m, data, n, [Bullets(width)])
  {
    BulletsPlain(width);
    StartsBefore(scan, m, data, n, Bullets(width));
    assert [Bullets(width)][..0] == [];
  }

  /** Section 5.2 likewise: the law holds behind all lines exactly if no tab stands in the indent of the line or the item is
      whole tab stops wide. */
  lemma ItemExact(scan: Scanners, m: string, data: ListData, n: nat, line: string)
    requires Local(scan) && Sober(scan) && Markless(line) && MarkerText(m, data) && 1 <= n <= 4
    ensures (|m| + n) % 4 == 0 || Untabbed(Ended(line), 0) <==>
            forall before | Itemizes(scan, m, data, n, before) :: InItem(scan, m, data, n, before + [line], {})
  {
    if (|m| + n) % 4 == 0 || Untabbed(Ended(line), 0) {
      forall before | Itemizes(scan, m, data, n, before) ensures InItem(scan, m, data, n, before + [line], {}) {
        ItemHoldsBehind(scan, m, data, n, before, line);
      }
    } else {
      var width := Wider(Spaces(|m| + n), Ended(line));
      UntabbedOrNot(line);
      BulletsItemizable(scan, m, data, n, width);
      BulletsInItem(scan, m, data, n, width);
      TabBreaksItemRun(scan, m, data, n, line, width);
      assert [Bullets(width)] + [line] == [Bullets(width), line];
    }
  }

  const MINUS := ListData(false, '-', false, 0, 0, 0)

  lemma TabWidths()
    ensures Wider(Spaces(2), Ended(TAB)) == 4 && Markless(TAB) && TabIndented(TAB)
  {
    var (s, pre) := (Ended(TAB), Spaces(2));
    TabIndents(s);
    assert pre + s == "  \tx\n";
    assert Nonspace(pre + s, 3, 4) == (3, 4) && Nonspace(pre + s, 2, 2) == (3, 4);
    assert Peek(s, 0) == '\t' && Lead(s, 0) == Lead(s, 1) == 1;
  }

  lemma TabItemized()
    ensures Itemized("-", 1, ["+ +", TAB], {}) == ["- + +", "  \tx"]
  {
    assert "-" + Spaces(1) + "+ +" == "- + +" && Spaces(2) + TAB == "  \tx";
    ItemizedMore("-", 1, [], "+ +", {});
    ItemizedMore("-", 1, ["+ +"], TAB, {});
    assert [] + ["+ +"] == ["+ +"] && ["+ +"] + [TAB] == ["+ +", TAB];
  }

  /** A line with a tab for which section 5.2 fails: alone it is text of the inner of two empty items, in an item two columns
      wide its indent is too narrow for that. */
  lemma TabBreaksItem(scan: Scanners)
    requires Local(scan) && Sober(scan)
    ensures MarkerText("-", MINUS) && Itemized("-", 1, ["+ +", TAB], {}) == ["- + +", "  \tx"]
    ensures !InItem(scan, "-", MINUS, 1, ["+ +", TAB], {})
  {
    TabWidths();
    TabItemized();
    assert Bullets(4) == "+ " + Bullets(2) == "+ +";
    BulletsInItem(scan, "-", MINUS, 1, 4);
    TabBreaksItemRun(scan, "-", MINUS, 1, TAB, 4);
  }
}
