/** Section 5.2 of the GitHub Flavored Markdown Spec on whole runs: a list marker before the first line and as many spaces before
    the others put all the blocks in a list item. */
module ItemLaw {

  import opened Common
  import opened BlockScan
  import opened BlockTree
  import opened BlockLines
  import opened BlockLaws
  import opened Columns
  import opened LineCursor
  import opened LineShift
  import opened NestLaw

  // ---------- the item ----------

  // The marker of an item that nothing keeps from being one, and what it says.
  predicate MarkerText(m: string, data: ListData) {
    ListMarker(m + " ", 0, false) == Marker(|m|, data)
  }

  // The data of an item whose text begins n columns behind its marker.
  function ItemOf(m: string, data: ListData, n: nat): ListData {
    data.(padding := |m| + n, markerOffset := 0)
  }

  // The item in a list of its own.
  function ItemShell(item: ListData): Shell {
    Shell([New(Document).(children := 1), New(List).(list := item, children := 1)], New(Item).(list := item))
  }

  // What a list item looks like from inside a list.
  predicate ItemIn(h: Shell, width: nat) {
    && |h.outer| == 2 && h.outer[1].kind == List && h.inner.kind == Item
    && width == h.inner.list.markerOffset + h.inner.list.padding > 0
  }

  // ---------- indented lines ----------

  lemma {:induction false} OverSpaces(q: string, c: Cursor, count: nat)
    requires forall k | c.offset <= k < c.offset + count :: Peek(q, k) == ' '
    ensures Advance(q, c, count, true) == if count == 0 then c else Cursor(c.offset + count, c.column + count, false)
    ensures Nonspace(q, c.offset, c.column).1 >= c.column + count
    decreases count
  {
    if count > 0 {
      assert Peek(q, c.offset) == ' ';
      OverSpaces(q, Cursor(c.offset + 1, c.column + 1, false), count - 1);
    }
  }

  lemma ItemTakes(behind: Rules, scan: Scanners, s: string, h: Shell, fs: Chain, width: nat)
    requires ItemIn(h, width) && Follows(behind, scan, Spaces(width) + s)
    ensures Taken(behind, h, fs, Cursor(width, width, false))
  {
    var (q, gs) := (Spaces(width) + s, Nest(h, fs));
    AskPrefix(behind, scan, q, gs[1], START);
    AskPrefix(behind, scan, q, gs[2], START);
    OverSpaces(q, START, width);
    assert gs[1] == h.outer[1] && gs[2] == h.inner.(children := fs[0].children);
    assert Met(behind, gs, 2, START) == Met(behind, gs, 3, Cursor(width, width, false));
  }

  lemma IndentedStart(width: nat, line: string, lineNumber: nat)
    requires width > 0
    ensures Ended(Spaces(width) + line) == Spaces(width) + Ended(line) && TextStart(Ended(Spaces(width) + line), lineNumber) == 0
  {
    EndedBehind(Spaces(width), line);
    var input := Ended(Spaces(width) + line);
    assert |input| >= 3 ==> input[..3][0] == ' ' && BYTE_ORDER_MARK[0] != ' ';
  }

  /** One line: the indent puts what the line does to the open blocks into the item. */
  lemma ItemProcessed(scan: Scanners, h: Shell, width: nat, fs: Chain, line: string, lineNumber: nat)
    requires Local(scan) && ItemIn(h, width) && Fits(width, line, lineNumber) && Rooted(fs)
    ensures Processed(scan, Nest(h, fs), Spaces(width) + line, lineNumber) == Nest(h, Processed(scan, fs, line, lineNumber))
    ensures Rooted(Processed(scan, fs, line, lineNumber))
  {
    var (pre, s) := (Spaces(width), Ended(line));
    var behind := RulesOf(scan, Ended(pre + line));
    IndentedStart(width, line, lineNumber);
    LinePair(scan, pre, line);
    ItemTakes(behind, scan, s, h, fs, width);
    NestLine(RulesOf(scan, s), behind, scan, pre, s, h, fs, Cursor(width, width, false));
  }

  // ---------- the first line ----------

  // Digits that end before the text does are the same in a longer one.
  lemma {:induction false} DigitsGoOn(s: string, rest: string, i: nat, left: nat, value: nat)
    requires Digits(s, i, left, value).0 < |s|
    ensures Digits(s + rest, i, left, value) == Digits(s, i, left, value)
    decreases left
  {
    if left > 0 && Digit(Peek(s, i)) {
      DigitsGoOn(s, rest, i + 1, left - 1, 10 * value + (s[i] as int - '0' as int));
    }
  }

  lemma MarkerGoesOn(m: string, data: ListData, rest: string)
    requires MarkerText(m, data)
    ensures ListMarker(m + " " + rest, 0, false) == Marker(|m|, data)
    ensures m != "" && Mark(m[0]) && !SpaceOrTab(m[0]) && m[0] != '>'
  {
    var s := m + " ";
    if Digit(Peek(s, 0)) {
      DigitsGoOn(s, rest, 0, 9, 0);
    }
  }

  // The first line of an item: a marker, one to four spaces, and text that begins with no blank; it is no thematic break, and no
  // scanner takes it for something else.
  ghost predicate StartsItem(scan: Scanners, m: string, data: ListData, n: nat, line: string) {
    var q := Ended(m + Spaces(n) + line);
    && MarkerText(m, data) && 1 <= n <= 4 && line != "" && !Space(line[0])
    && ScanBreak(q, 0).0 == 0 && SilentAt(scan, q, 0)
  }

  // What the marker and the spaces behind it say.
  lemma ItemHead(q: string, m: string, data: ListData, n: nat, line: string)
    requires MarkerText(m, data) && 1 <= n <= 4 && line != "" && !Space(line[0]) && q == m + Spaces(n) + Ended(line)
    ensures ListMarker(q, 0, false) == Marker(|m|, data) && Nonspace(q, 0, 0) == (0, 0) && Peek(q, 0) != '>'
    ensures ItemAt(q, START, |m|, data) == (ItemOf(m, data, n), Cursor(|m| + n, |m| + n, false))
  {
    var rest := Spaces(n - 1) + Ended(line);
    assert Spaces(n) == " " + Spaces(n - 1);
    assert q == m + " " + rest;
    MarkerGoesOn(m, data, rest);
    SpacesThenText(q, |m|, n);
  }

  lemma {:induction false} SpacesThenText(q: string, at: nat, n: nat)
    requires at + n < |q| && (forall k | at <= k < at + n :: q[k] == ' ') && !SpaceOrTab(q[at + n])
    ensures Nonspace(q, at, at) == (at + n, at + n)
    decreases n
  {
    if n > 0 {
      SpacesThenText(q, at + 1, n - 1);
    }
  }

  lemma ItemChosen(scan: Scanners, q: string, m: string, data: ListData, n: nat, line: string)
    requires StartsItem(scan, m, data, n, line) && q == m + Spaces(n) + Ended(line) == Ended(m + Spaces(n) + line)
    ensures ChoiceAt(scan, q, Document, START, true, false) == Bullet(Marker(|m|, data))
    ensures Begun(scan, Bullet(Marker(|m|, data)), [New(Document)], q, START)
         == (Nest(ItemShell(ItemOf(m, data, n)), [New(Document)]), Cursor(|m| + n, |m| + n, false))
  {
    ItemHead(q, m, data, n, line);
    NewItem(scan, ItemOf(m, data, n));
  }

  lemma NewItem(scan: Scanners, item: ListData)
    ensures WithItem(scan, [New(Document)], item) == Nest(ItemShell(item), [New(Document)])
  {
    var list := New(List).(list := item);
    assert With(scan, [New(Document)], list) == [New(Document).(children := 1), list];
    assert ListOf(scan, [New(Document)], item) == [New(Document).(children := 1), list];
    assert Room(scan, [New(Document).(children := 1), list], Item) == [New(Document).(children := 1), list.(children := 1)];
  }

  lemma ItemOpens(behind: Rules, scan: Scanners, q: string, m: string, data: ListData, n: nat, line: string)
    requires StartsItem(scan, m, data, n, line) && q == m + Spaces(n) + Ended(line) == Ended(m + Spaces(n) + line)
    requires Follows(behind, scan, q)
    ensures Opens(behind, ItemShell(ItemOf(m, data, n)), Cursor(|m| + n, |m| + n, false))
  {
    var fs: Chain := [New(Document)];
    var o := Opening(fs, START, false, true);
    ItemChosen(scan, q, m, data, n, line);
    AskTurn(behind, scan, q, o, true, false);
    AskChoice(behind, scan, q, Document, START, true, false);
    AskBegin(behind, scan, q, Bullet(Marker(|m|, data)), fs, START);
  }

  lemma HeadStart(m: string, data: ListData, n: nat, line: string)
    requires MarkerText(m, data) && n > 0
    ensures Ended(m + Spaces(n) + line) == m + Spaces(n) + Ended(line) && TextStart(Ended(m + Spaces(n) + line), 0) == 0
  {
    var pre := m + Spaces(n);
    assert pre[|pre| - 1] == ' ';
    EndedBehind(pre, line);
    MarkerGoesOn(m, data, "");
    var input := Ended(pre + line);
    assert |input| >= 3 ==> input[..3][0] == m[0] && BYTE_ORDER_MARK[0] != m[0];
  }

  // The first line opens the list and the item.
  lemma ItemFirst(scan: Scanners, m: string, data: ListData, n: nat, line: string)
    requires Local(scan) && Fits(|m| + n, line, 0) && StartsItem(scan, m, data, n, line)
    ensures var (fs: Chain, h) := ([New(Document)], ItemShell(ItemOf(m, data, n)));
            Processed(scan, fs, m + Spaces(n) + line, 0) == Nest(h, Processed(scan, fs, line, 0))
            && Rooted(Processed(scan, fs, line, 0))
  {
    var (pre, s) := (m + Spaces(n), Ended(line));
    var behind := RulesOf(scan, Ended(pre + line));
    HeadStart(m, data, n, line);
    LinePair(scan, pre, line);
    ItemOpens(behind, scan, pre + s, m, data, n, line);
    NestFirst(RulesOf(scan, s), behind, scan, pre, s, ItemShell(ItemOf(m, data, n)), Cursor(|m| + n, |m| + n, false));
  }

  /** Before text that goes on with a paragraph the indent can be left out. */
  lemma ItemLazy(scan: Scanners, h: Shell, width: nat, fs: Chain, line: string, lineNumber: nat)
    requires ItemIn(h, width) && Continuation(scan, fs, line, lineNumber, List)
    ensures Processed(scan, Nest(h, fs), line, lineNumber) == Nest(h, Processed(scan, fs, line, lineNumber))
    ensures Rooted(Processed(scan, fs, line, lineNumber))
  {
    var (s, gs) := (Ended(line), Nest(h, fs));
    var rules := RulesOf(scan, s);
    AskPrefix(rules, scan, s, gs[1], START);
    AskPrefix(rules, scan, s, gs[2], START);
    assert gs[1] == h.outer[1] && gs[2] == h.inner.(children := fs[0].children);
    assert Met(rules, gs, 2, START) == (2, false, START);
    NestLazy(scan, h, fs, line, lineNumber, 2);
  }

  // ---------- whole runs ----------

  // The lines of an item: the marker before the first, as many spaces before the others but the lazy ones.
  function Itemized(m: string, n: nat, lines: seq<string>, lazy: set<nat>): (qs: seq<string>)
    ensures |qs| == |lines|
  {
    if lines == [] then []
    else
      var k := |lines| - 1;
      Itemized(m, n, lines[..k], lazy) + [ItemLine(m, n, lines[k], k, lazy)]
  }

  function ItemLine(m: string, n: nat, line: string, k: nat, lazy: set<nat>): string {
    if k == 0 then m + Spaces(n) + line else if k in lazy then line else Spaces(|m| + n) + line
  }

  lemma ItemizedMore(m: string, n: nat, before: seq<string>, line: string, lazy: set<nat>)
    ensures Itemized(m, n, before + [line], lazy) == Itemized(m, n, before, lazy) + [ItemLine(m, n, line, |before|, lazy)]
  {
    assert (before + [line])[..|before|] == before;
  }

  // The lines of the item leave the same blocks in the item.
  ghost predicate InItem(scan: Scanners, m: string, data: ListData, n: nat, lines: seq<string>, lazy: set<nat>) {
    var fs := Run(scan, lines);
    Rooted(fs) && Run(scan, Itemized(m, n, lines, lazy)) == Nest(ItemShell(ItemOf(m, data, n)), fs)
  }

  // One more line has no tab among its marks unless the item is whole tab stops wide; a lazy one goes on with a paragraph.
  ghost predicate ItemizableLine(scan: Scanners, width: nat, before: seq<string>, line: string, lazy: set<nat>) {
    && Fits(width, line, |before|)
    && (before != [] && |before| in lazy ==> Continuation(scan, Run(scan, before), line, |before|, List))
  }

  ghost predicate ItemizableAt(scan: Scanners, width: nat, lines: seq<string>, lazy: set<nat>, i: nat)
    requires i < |lines|
  {
    ItemizableLine(scan, width, lines[..i], lines[i], lazy)
  }

  lemma OneInItem(scan: Scanners, m: string, data: ListData, n: nat, line: string, lazy: set<nat>)
    requires Local(scan) && Fits(|m| + n, line, 0) && StartsItem(scan, m, data, n, line)
    ensures InItem(scan, m, data, n, [line], lazy)
  {
    ItemizedMore(m, n, [], line, lazy);
    RunMore(scan, [], line);
    RunMore(scan, [], m + Spaces(n) + line);
    assert [] + [line] == [line] && Itemized(m, n, [], lazy) + [m + Spaces(n) + line] == [] + [m + Spaces(n) + line];
    ItemFirst(scan, m, data, n, line);
  }

  // One more line, indented or lazy.
  lemma ItemGoesOn(scan: Scanners, h: Shell, m: string, n: nat, fs: Chain, line: string, k: nat, lazy: set<nat>)
    requires Local(scan) && ItemIn(h, |m| + n) && k > 0 && Rooted(fs) && Fits(|m| + n, line, k)
    requires k in lazy ==> Continuation(scan, fs, line, k, List)
    ensures Processed(scan, Nest(h, fs), ItemLine(m, n, line, k, lazy), k) == Nest(h, Processed(scan, fs, line, k))
    ensures Rooted(Processed(scan, fs, line, k))
  {
    if k in lazy {
      ItemLazy(scan, h, |m| + n, fs, line, k);
    } else {
      ItemProcessed(scan, h, |m| + n, fs, line, k);
    }
  }

  lemma MoreInItem(scan: Scanners, m: string, data: ListData, n: nat, before: seq<string>, line: string, lazy: set<nat>)
    requires Local(scan) && n > 0 && before != [] && InItem(scan, m, data, n, before, lazy)
    requires ItemizableLine(scan, |m| + n, before, line, lazy)
    ensures InItem(scan, m, data, n, before + [line], lazy)
  {
    ItemizedMore(m, n, before, line, lazy);
    RunMore(scan, before, line);
    RunMore(scan, Itemized(m, n, before, lazy), ItemLine(m, n, line, |before|, lazy));
    ItemGoesOn(scan, ItemShell(ItemOf(m, data, n)), m, n, Run(scan, before), line, |before|, lazy);
  }

  ghost predicate Itemizable(scan: Scanners, width: nat, lines: seq<string>, lazy: set<nat>) {
    forall i: nat | i < |lines| :: ItemizableAt(scan, width, lines, lazy, i)
  }

  lemma ItemizableBefore(scan: Scanners, width: nat, before: seq<string>, line: string, lazy: set<nat>)
    requires Itemizable(scan, width, before + [line], lazy)
    ensures Itemizable(scan, width, before, lazy) && ItemizableLine(scan, width, before, line, lazy)
  {
    var lines := before + [line];
    assert lines[..|before|] == before && ItemizableAt(scan, width, lines, lazy, |before|);
    forall i: nat | i < |before| ensures ItemizableAt(scan, width, before, lazy, i) {
      assert lines[..i] == before[..i] && ItemizableAt(scan, width, lines, lazy, i);
    }
  }

  // Behind the first line.
  lemma {:induction false} ItemRunOn(scan: Scanners, m: string, data: ListData, n: nat, lines: seq<string>, lazy: set<nat>)
    requires Local(scan) && n > 0 && lines != [] && Itemizable(scan, |m| + n, lines, lazy)
    requires InItem(scan, m, data, n, lines[..1], lazy)
    ensures InItem(scan, m, data, n, lines, lazy)
    decreases |lines|
  {
    var before := lines[..|lines| - 1];
    var line := lines[|lines| - 1];
    if before == [] {
      assert lines[..1] == lines;
    } else {
      assert lines == before + [line] && before[..1] == lines[..1];
      ItemizableBefore(scan, |m| + n, before, line, lazy);
      ItemRunOn(scan, m, data, n, before, lazy);
      MoreInItem(scan, m, data, n, before, line, lazy);
    }
  }

  /** Section 5.2: the blocks that are open after some lines, the first of which begins with no
      blank, are those open after the lines of the item, inside the item, and the indent can be left out before text that goes
      on with a paragraph; no tab may stand among their marks unless the item is whole tab stops wide. */
  lemma ItemRun(scan: Scanners, m: string, data: ListData, n: nat, lines: seq<string>, lazy: set<nat>)
    requires Local(scan) && lines != [] && Itemizable(scan, |m| + n, lines, lazy)
    requires StartsItem(scan, m, data, n, lines[0])
    ensures InItem(scan, m, data, n, lines, lazy)
  {
    assert lines[..1] == [lines[0]] && lines[..0] == [] && ItemizableAt(scan, |m| + n, lines, lazy, 0);
    OneInItem(scan, m, data, n, lines[0], lazy);
    ItemRunOn(scan, m, data, n, lines, lazy);
  }
}
