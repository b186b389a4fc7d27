/** The same lines inside a block quote or a list item: behind a prefix that the containers take, a line does to the blocks
    inside what it does to the blocks of a document. */
module NestLaw {

  import opened Common
  import opened BlockScan
  import opened BlockTree
  import opened BlockLines
  import opened BlockLaws
  import opened Columns
  import opened LineCursor
  import opened LineShift

  // ---------- the blocks inside a quote or an item ----------

  // The open blocks around a container, and the container.
  datatype Shell = Shell(outer: Chain, inner: Frame)

  // The same blocks in the container, which takes the place of the document.
  function Nest(h: Shell, fs: Chain): (gs: Chain)
    ensures |gs| == |fs| + |h.outer|
  {
    h.outer + [h.inner.(children := fs[0].children)] + fs[1..]
  }

  predicate Roomy(h: Shell) {
    h.inner.kind == BlockQuote || h.inner.kind == Item
  }

  predicate Rooted(fs: Chain) {
    fs[0].kind == Document
  }

  lemma NestLast(h: Shell, fs: Chain)
    requires Roomy(h)
    ensures |fs| > 1 ==> Last(Nest(h, fs)) == Last(fs)
    ensures Rooted(fs) ==> SameRole(Last(fs).kind, Last(Nest(h, fs)).kind)
  {
  }

  lemma NestUpdate(h: Shell, fs: Chain, f: Frame)
    requires |fs| > 1
    ensures Nest(h, fs[|fs| - 1 := f]) == Nest(h, fs)[|Nest(h, fs)| - 1 := f]
  {
  }

  lemma NestPush(h: Shell, fs: Chain, f: Frame)
    ensures Nest(h, fs + [f]) == Nest(h, fs) + [f]
  {
  }

  lemma NestOneMore(h: Shell, fs: Chain)
    ensures Nest(h, OneMore(fs)) == OneMore(Nest(h, fs))
  {
  }

  lemma NestOneLess(h: Shell, fs: Chain, i: nat)
    ensures Nest(h, OneLess(fs, i)) == OneLess(Nest(h, fs), i + |h.outer|)
  {
  }

  lemma NestClosed(scan: Scanners, h: Shell, fs: Chain)
    requires |fs| > 1
    ensures Nest(h, Closed(scan, fs)) == Closed(scan, Nest(h, fs))
  {
    var outer: Chain := fs[..|fs| - 1];
    assert Nest(h, outer) == Nest(h, fs)[..|Nest(h, fs)| - 1];
    NestOneLess(h, outer, |outer| - 1);
  }

  lemma {:induction false} NestRoom(scan: Scanners, h: Shell, fs: Chain, kind: Kind)
    requires Roomy(h) && Rooted(fs) && Fitting(fs, kind)
    ensures Nest(h, Room(scan, fs, kind)) == Room(scan, Nest(h, fs), kind) && Rooted(Room(scan, fs, kind))
    decreases |fs|
  {
    NestLast(h, fs);
    NestOneMore(h, fs);
    if |fs| > 1 && !CanContain(Last(fs).kind, kind) {
      NestClosed(scan, h, fs);
      NestRoom(scan, h, Closed(scan, fs), kind);
    }
  }

  lemma NestWith(scan: Scanners, h: Shell, fs: Chain, f: Frame)
    requires Roomy(h) && Rooted(fs) && Fitting(fs, f.kind)
    ensures Nest(h, With(scan, fs, f)) == With(scan, Nest(h, fs), f) && Rooted(With(scan, fs, f))
  {
    NestRoom(scan, h, fs, f.kind);
    NestPush(h, Room(scan, fs, f.kind), f);
  }

  lemma NestItem(scan: Scanners, h: Shell, fs: Chain, data: ListData)
    requires Roomy(h) && Rooted(fs)
    ensures Nest(h, WithItem(scan, fs, data)) == WithItem(scan, Nest(h, fs), data) && Rooted(WithItem(scan, fs, data))
  {
    NestLast(h, fs);
    var list := New(List).(list := data);
    if !(Last(fs).kind == List && ListsMatch(Last(fs).list, data)) {
      NestWith(scan, h, fs, list);
    }
    NestWith(scan, h, ListOf(scan, fs, data), New(Item).(list := data));
  }

  // ---------- one line ----------

  // What a choice means for the bytes at the first non-space.
  predicate Sensible(chosen: Start, s: string, c: Cursor, fs: Chain) {
    var (at, column) := Nonspace(s, c.offset, c.column);
    match chosen
    case Quote => Peek(s, at) == '>'
    case Setext => Last(fs).kind == Paragraph
    case Indented => column - c.column >= 4
    case Bullet(m) => m.Marker? && m == ListMarker(s, at, Last(fs).kind == Paragraph)
    case _ => true
  }

  lemma ChoiceSensible(scan: Scanners, s: string, c: Cursor, fs: Chain, allMatched: bool, maybeLazy: bool)
    ensures Sensible(ChoiceAt(scan, s, Last(fs).kind, c, allMatched, maybeLazy), s, c, fs)
  {
  }

  // After its start a block whose lines are not its text may hold further blocks.
  predicate GoesOn(chosen: Start, fs: Chain) {
    chosen != NoStart && !AcceptsLines(Last(fs).kind)
  }

  // The same blocks and, if the line goes on with further ones, a cursor from which columns may be measured.
  predicate Beside(pre: string, s: string, h: Shell, chosen: Start, a: (Chain, Cursor), b: (Chain, Cursor)) {
    && Rooted(a.0) && b.0 == Nest(h, a.0) && Near(pre, a.1, b.1)
    && (GoesOn(chosen, a.0) ==> Apart(pre, s, a.1, b.1))
  }

  lemma NestBegunBlock(scan: Scanners, chosen: Start, h: Shell, fs: Chain, pre: string, s: string, c: Cursor, e: Cursor)
    requires Local(scan) && Roomy(h) && s != "" && LineEnd(s[|s| - 1]) && Rooted(fs) && Apart(pre, s, c, e) && Sensible(chosen, s, c, fs)
    requires chosen.Quote? || chosen.Atx? || chosen.CodeFence? || chosen.Html? || chosen.Rule? || chosen.Indented?
    ensures Beside(pre, s, h, chosen, Begun(scan, chosen, fs, s, c), Begun(scan, chosen, Nest(h, fs), pre + s, e))
  {
    match chosen
    case Quote =>
      var (at, column) := Nonspace(s, c.offset, c.column);
      IndentOver(pre, s, c, e);
      BehindMarkerOver(pre, s, at, column, Nonspace(pre + s, e.offset, e.column).1);
      NestWith(scan, h, fs, New(BlockQuote));
    case Atx(length) =>
      BehindOver(pre, s, c, e, length);
      NestWith(scan, h, fs, New(Heading));
    case CodeFence(length) =>
      BehindOver(pre, s, c, e, length);
      FenceAtOver(pre, s, c, e, length);
      NestWith(scan, h, fs, New(CodeBlock).(fence := FenceAt(s, c, length)));
    case Html(htmlType) => NestWith(scan, h, fs, New(HtmlBlock).(htmlType := htmlType));
    case Rule =>
      BeforeEndOver(pre, s, c, e);
      NestWith(scan, h, fs, New(ThematicBreak));
    case Indented =>
      IndentOver(pre, s, c, e);
      ColumnsOver(pre, s, c, e, 4);
      NestWith(scan, h, fs, New(CodeBlock));
  }

  lemma NestBegun(scan: Scanners, chosen: Start, h: Shell, fs: Chain, pre: string, s: string, c: Cursor, e: Cursor)
    requires Local(scan) && Roomy(h) && s != "" && LineEnd(s[|s| - 1]) && Rooted(fs) && Apart(pre, s, c, e) && Sensible(chosen, s, c, fs)
    ensures Beside(pre, s, h, chosen, Begun(scan, chosen, fs, s, c), Begun(scan, chosen, Nest(h, fs), pre + s, e))
  {
    match chosen
    case NoStart =>
    case Bullet(m) =>
      ItemAtOver(pre, s, c, e, Last(fs).kind == Paragraph);
      NestItem(scan, h, fs, ItemAt(s, c, m.matched, m.data).0);
    case Setext =>
      NestLast(h, fs);
      NestUpdate(h, fs, Underlined(scan, Last(fs)));
      BeforeEndOver(pre, s, c, e);
    case _ => NestBegunBlock(scan, chosen, h, fs, pre, s, c, e);
  }

  // The rules of a line and those of the line behind the prefix.
  ghost predicate Pair(rules: Rules, behind: Rules, scan: Scanners, pre: string, s: string) {
    Follows(rules, scan, s) && Follows(behind, scan, pre + s) && Local(scan) && s != "" && LineEnd(s[|s| - 1])
  }

  // The same prefixes match.
  predicate MetAlike(h: Shell, pre: string, s: string, a: (nat, bool, Cursor), b: (nat, bool, Cursor)) {
    b.0 == a.0 + |h.outer| && a.1 == b.1 && Near(pre, a.2, b.2) && (!a.1 ==> Apart(pre, s, a.2, b.2))
  }

  lemma {:induction false} NestMet(rules: Rules, behind: Rules, scan: Scanners, pre: string, s: string, h: Shell, fs: Chain, i: nat, c: Cursor, e: Cursor)
    requires Pair(rules, behind, scan, pre, s) && Apart(pre, s, c, e) && i > 0
    ensures MetAlike(h, pre, s, Met(rules, fs, i, c), Met(behind, Nest(h, fs), i + |h.outer|, e))
    decreases |fs| - i
  {
    if i < |fs| {
      assert Nest(h, fs)[i + |h.outer|] == fs[i];
      AskPrefix(rules, scan, s, fs[i], c);
      AskPrefix(behind, scan, pre + s, fs[i], e);
      PrefixedOver(scan, fs[i], pre, s, c, e);
      var (m, n) := (rules.prefix(fs[i], c), behind.prefix(fs[i], e));
      if m.matched && !m.closes {
        NestMet(rules, behind, scan, pre, s, h, fs, i + 1, m.cursor, n.cursor);
      }
    }
  }

  // An opening inside the container; the line may have started the container itself.
  predicate Inside(pre: string, s: string, h: Shell, o: Opening, p: Opening, begun: bool) {
    && Roomy(h) && Rooted(o.frames) && p.frames == Nest(h, o.frames) && p.begun == (o.begun || begun) && p.more == o.more
    && Near(pre, o.cursor, p.cursor) && (o.more ==> Apart(pre, s, o.cursor, p.cursor))
  }

  lemma NestTurn(rules: Rules, behind: Rules, scan: Scanners, pre: string, s: string, h: Shell, o: Opening, p: Opening, begun: bool,
                 allMatched: bool, maybeLazy: bool)
    requires Pair(rules, behind, scan, pre, s) && Inside(pre, s, h, o, p, begun) && o.more
    ensures Inside(pre, s, h, rules.turn(o, allMatched, maybeLazy), behind.turn(p, allMatched, maybeLazy), begun)
  {
    AskTurn(rules, scan, s, o, allMatched, maybeLazy);
    AskTurn(behind, scan, pre + s, p, allMatched, maybeLazy);
    NestLast(h, o.frames);
    AskChoice(rules, scan, s, Last(o.frames).kind, o.cursor, allMatched, maybeLazy);
    AskChoice(behind, scan, pre + s, Last(p.frames).kind, p.cursor, allMatched, maybeLazy);
    ChoiceOver(scan, pre, s, Last(o.frames).kind, Last(p.frames).kind, o.cursor, p.cursor, allMatched, maybeLazy);
    ChoiceSensible(scan, s, o.cursor, o.frames, allMatched, maybeLazy);
    NestTurned(rules, behind, scan, pre, s, h, o, p, begun, rules.choose(Last(o.frames).kind, o.cursor, allMatched, maybeLazy));
  }

  lemma NestTurned(rules: Rules, behind: Rules, scan: Scanners, pre: string, s: string, h: Shell, o: Opening, p: Opening, begun: bool, chosen: Start)
    requires Pair(rules, behind, scan, pre, s) && Inside(pre, s, h, o, p, begun) && o.more && Sensible(chosen, s, o.cursor, o.frames)
    ensures Inside(pre, s, h, Turned(rules, o, chosen), Turned(behind, p, chosen), begun)
  {
    AskBegin(rules, scan, s, chosen, o.frames, o.cursor);
    AskBegin(behind, scan, pre + s, chosen, p.frames, p.cursor);
    NestBegun(scan, chosen, h, o.frames, pre, s, o.cursor, p.cursor);
    NestLast(h, Turned(rules, o, chosen).frames);
  }

  lemma {:induction false} NestOpened(rules: Rules, behind: Rules, scan: Scanners, pre: string, s: string, h: Shell, o: Opening, p: Opening, begun: bool,
                                      allMatched: bool, maybeLazy: bool)
    requires Pair(rules, behind, scan, pre, s) && Inside(pre, s, h, o, p, begun)
    ensures Inside(pre, s, h, AllOpened(rules, o, allMatched, maybeLazy), AllOpened(behind, p, allMatched, maybeLazy), begun)
    decreases rules.size - o.cursor.offset
  {
    NestLast(h, o.frames);
    var kind := Last(o.frames).kind;
    if o.more && kind != CodeBlock && kind != HtmlBlock {
      NestTurn(rules, behind, scan, pre, s, h, o, p, begun, allMatched, maybeLazy);
      var (next, other) := (rules.turn(o, allMatched, maybeLazy), behind.turn(p, allMatched, maybeLazy));
      if o.cursor.offset < next.cursor.offset <= rules.size {
        NestOpened(rules, behind, scan, pre, s, h, next, other, begun, allMatched, false);
      }
    }
  }

  lemma NestExtended(h: Shell, fs: Chain, text: string)
    requires |fs| > 1
    ensures Nest(h, Extended(fs, text)) == Extended(Nest(h, fs), text)
  {
  }

  lemma NestFilled(scan: Scanners, h: Shell, fs: Chain, pre: string, s: string, c: Cursor, e: Cursor)
    requires Local(scan) && Roomy(h) && Rooted(fs) && Near(pre, c, e)
    ensures Nest(h, Filled(scan, fs, s, c)) == Filled(scan, Nest(h, fs), pre + s, e) && Rooted(Filled(scan, fs, s, c))
  {
    var at := Nonspace(s, c.offset, c.column).0;
    NestLast(h, fs);
    NonspaceAtOver(pre, s, c.offset, c.column, e.column);
    PeekOver(pre, s, at);
    assert LocalAt(scan, pre, s, at);
    RestOver(pre, s, c, e);
    BehindOver(pre, s, c, e, 0);
    RestOver(pre, s, Behind(s, c, 0), Behind(pre + s, e, 0));
    var kind := Last(fs).kind;
    if kind == CodeBlock {
      NestExtended(h, fs, Rest(s, c));
    } else if kind == HtmlBlock {
      NestExtended(h, fs, Rest(s, c));
      assert Nest(h, fs[..|fs| - 1]) == Nest(h, fs)[..|Nest(h, fs)| - 1];
    } else if AcceptsLines(kind) {
      NestExtended(h, fs, Rest(s, Behind(s, c, 0)));
    } else if !BlankAt(s, c) {
      NestWith(scan, h, fs, NewParagraph(Rest(s, Behind(s, c, 0))));
    }
  }

  lemma NestTexted(rules: Rules, behind: Rules, scan: Scanners, pre: string, s: string, h: Shell, fs: Chain, n: nat, o: Opening, p: Opening)
    requires Pair(rules, behind, scan, pre, s) && Rooted(fs) && Inside(pre, s, h, o, p, false) && 0 < n
    ensures Nest(h, Texted(rules, fs, n, o)) == Texted(behind, Nest(h, fs), n + |h.outer|, p)
    ensures Rooted(Texted(rules, fs, n, o))
  {
    NestLast(h, fs);
    AskText(rules, scan, s, o.cursor);
    AskText(behind, scan, pre + s, p.cursor);
    BlankOver(pre, s, o.cursor, p.cursor);
    RestOver(pre, s, o.cursor, p.cursor);
    AskFreed(rules, scan, s, Last(fs));
    AskFreed(behind, scan, pre + s, Last(fs));
    NestOneLess(h, o.frames, n - 1);
    var settled := Settled(rules, fs, n, o.frames);
    if |fs| > 1 {
      NestExtended(h, fs, rules.rest(o.cursor));
    }
    AskFill(rules, scan, s, settled, o.cursor);
    AskFill(behind, scan, pre + s, Nest(h, settled), p.cursor);
    NestFilled(scan, h, settled, pre, s, o.cursor, p.cursor);
  }

  lemma NestContinued(rules: Rules, behind: Rules, scan: Scanners, pre: string, s: string, h: Shell, fs: Chain, n: nat, c: Cursor, e: Cursor)
    requires Pair(rules, behind, scan, pre, s) && Roomy(h) && Rooted(fs) && Apart(pre, s, c, e) && 0 < n <= |fs|
    ensures Nest(h, Continued(rules, fs, n, c)) == Continued(behind, Nest(h, fs), n + |h.outer|, e) && Rooted(Continued(rules, fs, n, c))
  {
    var gs := Nest(h, fs);
    var (o, p) := (Opening(fs[..n], c, false, true), Opening(gs[..n + |h.outer|], e, false, true));
    assert Nest(h, fs[..n]) == gs[..n + |h.outer|];
    NestLast(h, fs);
    var (all, lazy) := (n == |fs|, Last(fs).kind == Paragraph);
    NestOpened(rules, behind, scan, pre, s, h, o, p, false, all, lazy);
    NestTexted(rules, behind, scan, pre, s, h, fs, n, AllOpened(rules, o, all, lazy), AllOpened(behind, p, all, lazy));
  }

  const START := Cursor(0, 0, false)

  // The container and those around it take the prefix.
  predicate Taken(behind: Rules, h: Shell, fs: Chain, e: Cursor) {
    Met(behind, Nest(h, fs), 1, START) == Met(behind, Nest(h, fs), 1 + |h.outer|, e)
  }

  /** A line of the container. */
  lemma NestLine(rules: Rules, behind: Rules, scan: Scanners, pre: string, s: string, h: Shell, fs: Chain, e: Cursor)
    requires Pair(rules, behind, scan, pre, s) && Roomy(h) && Rooted(fs) && Apart(pre, s, START, e) && Taken(behind, h, fs, e)
    ensures Nest(h, Line(rules, fs, START)) == Line(behind, Nest(h, fs), START) && Rooted(Line(rules, fs, START))
  {
    var gs := Nest(h, fs);
    NestMet(rules, behind, scan, pre, s, h, fs, 1, START, e);
    var (n, closes, c) := Met(rules, fs, 1, START);
    if closes {
      assert Nest(h, fs[..|fs| - 1]) == gs[..|gs| - 1];
    } else {
      NestContinued(rules, behind, scan, pre, s, h, fs, n, c, Met(behind, gs, 1 + |h.outer|, e).2);
    }
  }

  // The first line of all is not matched by anything and fills what it opens.
  lemma LineOfDocument(rules: Rules, scan: Scanners, s: string) returns (end: Opening)
    requires Follows(rules, scan, s)
    ensures end == AllOpened(rules, Opening([New(Document)], START, false, true), true, false)
    ensures Line(rules, [New(Document)], START) == Filled(scan, end.frames, s, end.cursor)
  {
    var fs: Chain := [New(Document)];
    assert fs[..1] == fs;
    end := AllOpened(rules, Opening(fs, START, false, true), true, false);
    AskFill(rules, scan, s, end.frames, end.cursor);
  }

  // The first turn of the first line starts the container.
  predicate Opens(behind: Rules, h: Shell, e: Cursor) {
    behind.turn(Opening([New(Document)], START, false, true), true, false) == Opening(Nest(h, [New(Document)]), e, true, true)
  }

  /** The line that starts the container. */
  lemma NestFirst(rules: Rules, behind: Rules, scan: Scanners, pre: string, s: string, h: Shell, e: Cursor)
    requires Pair(rules, behind, scan, pre, s) && Roomy(h) && pre != "" && Apart(pre, s, START, e) && Opens(behind, h, e)
    ensures var fs: Chain := [New(Document)];
            Nest(h, Line(rules, fs, START)) == Line(behind, fs, START) && Rooted(Line(rules, fs, START))
  {
    var fs: Chain := [New(Document)];
    var o := Opening(fs, START, false, true);
    var p := behind.turn(o, true, false);
    NestOpened(rules, behind, scan, pre, s, h, o, p, true, true, false);
    var end := LineOfDocument(rules, scan, s);
    var inside := LineOfDocument(behind, scan, pre + s);
    assert inside == AllOpened(behind, p, true, false);
    NestFilled(scan, h, end.frames, pre, s, end.cursor, inside.cursor);
  }

  // ---------- lines ----------

  // No tab among the marks at the start of a line, and no byte order mark there.
  predicate Plain(line: string, lineNumber: nat) {
    Untabbed(Ended(line), 0) && TextStart(Ended(line), lineNumber) == 0
  }

  // Behind a prefix of this width all columns are measured as without it.
  predicate Fits(width: nat, line: string, lineNumber: nat) {
    Plain(line, lineNumber) || (width % 4 == 0 && TextStart(Ended(line), lineNumber) == 0)
  }

  /** Tabs behind a byte that is no blank, digit or mark are no tabs among the marks: the guard is met by text with tabs. */
  lemma TabsInText(line: string, lineNumber: nat, j: nat)
    requires TextStart(Ended(line), lineNumber) == 0
    requires j < |line| && !Mark(line[j]) && '\t' !in line[..j]
    ensures Plain(line, lineNumber)
  {
    var s := Ended(line);
    LeadEnds(s, 0, j);
    forall k | 0 <= k < Lead(s, 0) ensures Peek(s, k) != '\t' {
      assert line[..j][k] == s[k];
    }
  }

  // A prefix that ends with a space leaves the ending to the line.
  lemma EndedBehind(pre: string, line: string)
    requires pre != "" && pre[|pre| - 1] == ' '
    ensures Ended(pre + line) == pre + Ended(line)
  {
  }

  lemma LinePair(scan: Scanners, pre: string, line: string)
    requires Local(scan) && pre != "" && pre[|pre| - 1] == ' '
    ensures Pair(RulesOf(scan, Ended(line)), RulesOf(scan, Ended(pre + line)), scan, pre, Ended(line))
  {
    EndedBehind(pre, line);
  }

  // ---------- lazy continuation ----------

  // Text that goes on with the paragraph, also where a block of the kind is the last that goes on.
  ghost predicate Continuation(scan: Scanners, fs: Chain, line: string, lineNumber: nat, kind: Kind) {
    var s := Ended(line);
    && Rooted(fs) && Last(fs).kind == Paragraph && line != "" && !Space(line[0]) && TextStart(s, lineNumber) == 0
    && ChoiceAt(scan, s, kind, START, false, true) == NoStart
    && Processed(scan, fs, line, lineNumber) == Extended(fs, s)
  }

  // Behind the blocks that go on, the text starts nothing.
  lemma NothingOpens(rules: Rules, scan: Scanners, s: string, outer: Chain)
    requires Follows(rules, scan, s) && ChoiceAt(scan, s, Last(outer).kind, START, false, true) == NoStart
    ensures var end := AllOpened(rules, Opening(outer, START, false, true), false, true); end.cursor == START && !end.begun
  {
    var o := Opening(outer, START, false, true);
    AskTurn(rules, scan, s, o, false, true);
    AskChoice(rules, scan, s, Last(outer).kind, START, false, true);
    AskBegin(rules, scan, s, NoStart, outer, START);
  }

  /** The container need not take the prefix before text that goes on with its paragraph. */
  lemma NestLazy(scan: Scanners, h: Shell, fs: Chain, line: string, lineNumber: nat, k: nat)
    requires 0 < k <= |h.outer| && Continuation(scan, fs, line, lineNumber, h.outer[k - 1].kind)
    requires Met(RulesOf(scan, Ended(line)), Nest(h, fs), 1, START) == (k, false, START)
    ensures Processed(scan, Nest(h, fs), line, lineNumber) == Nest(h, Processed(scan, fs, line, lineNumber))
    ensures Rooted(Processed(scan, fs, line, lineNumber))
  {
    var (s, gs) := (Ended(line), Nest(h, fs));
    var rules := RulesOf(scan, s);
    assert Last(gs) == Last(fs) && Last(gs[..k]) == h.outer[k - 1];
    NothingOpens(rules, scan, s, gs[..k]);
    AskText(rules, scan, s, START);
    assert s[0] == line[0] && s[0..] == s;
    NestExtended(h, fs, s);
  }

  lemma RunMore(scan: Scanners, before: seq<string>, line: string)
    ensures Run(scan, before + [line]) == Processed(scan, Run(scan, before), line, |before|)
  {
    assert (before + [line])[..|before|] == before;
  }

  // No scanner matches there; none of those in scanners.c does at a letter or a list marker.
  ghost predicate SilentAt(scan: Scanners, s: string, i: nat) {
    scan.atxHeading(s, i) == 0 && scan.openFence(s, i) == 0 && scan.htmlStart(s, i) == 0 && scan.htmlStart7(s, i) == 0
  }
}
