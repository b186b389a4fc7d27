/** What runs keep: every open block may hold the next, and a blank line ends paragraphs, headings and quotes. */
module BlockLaws {

  import opened Common
  import opened BlockScan
  import opened BlockTree
  import opened BlockLines
  import opened Columns
  import opened LineCursor

  // ---------- every block may hold the next ----------

  predicate Holds(fs: Chain, i: nat)
    requires i + 1 < |fs|
  {
    CanContain(fs[i].kind, fs[i + 1].kind)
  }

  ghost predicate Nested(fs: Chain) {
    fs[0].kind == Document && forall i {:trigger Holds(fs, i)} :: 0 <= i < |fs| - 1 ==> Holds(fs, i)
  }

  // The same kinds, at most fewer.
  predicate SameKinds(fs: Chain, gs: Chain) {
    |gs| <= |fs| && forall i | 0 <= i < |gs| :: gs[i].kind == fs[i].kind
  }

  lemma SameNested(fs: Chain, gs: Chain)
    requires Nested(fs) && SameKinds(fs, gs)
    ensures Nested(gs)
  {
    forall i | 0 <= i < |gs| - 1 ensures Holds(gs, i) {
      assert Holds(fs, i);
    }
  }

  lemma PushNested(fs: Chain, f: Frame)
    requires Nested(fs) && CanContain(Last(fs).kind, f.kind)
    ensures Nested(fs + [f])
  {
    forall i | 0 <= i < |fs| ensures Holds(fs + [f], i) {
      assert i < |fs| - 1 ==> Holds(fs, i);
    }
  }

  predicate Fitting(fs: Chain, kind: Kind) {
    kind != Document && (kind == Item ==> Last(fs).kind == List)
  }

  lemma {:induction false} RoomNested(scan: Scanners, fs: Chain, kind: Kind)
    requires Nested(fs) && Fitting(fs, kind)
    ensures SameKinds(fs, Room(scan, fs, kind)) && CanContain(Last(Room(scan, fs, kind)).kind, kind)
    decreases |fs|
  {
    if |fs| > 1 && !CanContain(Last(fs).kind, kind) {
      SameNested(fs, Closed(scan, fs));
      RoomNested(scan, Closed(scan, fs), kind);
    }
  }

  lemma WithNested(scan: Scanners, fs: Chain, f: Frame)
    requires Nested(fs) && Fitting(fs, f.kind)
    ensures Nested(With(scan, fs, f))
  {
    RoomNested(scan, fs, f.kind);
    SameNested(fs, Room(scan, fs, f.kind));
    PushNested(Room(scan, fs, f.kind), f);
  }

  lemma ItemNested(scan: Scanners, fs: Chain, data: ListData)
    requires Nested(fs)
    ensures Nested(WithItem(scan, fs, data))
  {
    WithNested(scan, fs, New(List).(list := data));
    WithNested(scan, ListOf(scan, fs, data), New(Item).(list := data));
  }

  // A paragraph that becomes a heading: nothing is open inside, and what holds the one holds the other.
  lemma HeadingNested(scan: Scanners, fs: Chain)
    requires Nested(fs) && Last(fs).kind == Paragraph
    ensures Nested(fs[|fs| - 1 := Underlined(scan, Last(fs))])
  {
    var gs: Chain := fs[|fs| - 1 := Underlined(scan, Last(fs))];
    assert |fs| > 1;
    forall i | 0 <= i < |gs| - 1 ensures Holds(gs, i) {
      assert Holds(fs, i);
    }
  }

  lemma BegunNested(scan: Scanners, chosen: Start, fs: Chain, s: string, c: Cursor)
    requires Nested(fs) && (chosen == Setext ==> Last(fs).kind == Paragraph)
    ensures Nested(Begun(scan, chosen, fs, s, c).0)
  {
    match chosen
    case NoStart =>
    case Bullet(NoMarker) =>
    case Bullet(Marker(matched, data)) => ItemNested(scan, fs, ItemAt(s, c, matched, data).0);
    case Setext => HeadingNested(scan, fs);
    case Quote => WithNested(scan, fs, New(BlockQuote));
    case Atx(_) => WithNested(scan, fs, New(Heading));
    case CodeFence(length) => WithNested(scan, fs, New(CodeBlock).(fence := FenceAt(s, c, length)));
    case Html(htmlType) => WithNested(scan, fs, New(HtmlBlock).(htmlType := htmlType));
    case Rule => WithNested(scan, fs, New(ThematicBreak));
    case Indented => WithNested(scan, fs, New(CodeBlock));
  }

  lemma SetextOnParagraph(scan: Scanners, s: string, kind: Kind, c: Cursor, allMatched: bool, maybeLazy: bool)
    ensures ChoiceAt(scan, s, kind, c, allMatched, maybeLazy) == Setext ==> kind == Paragraph
  {
  }

  lemma TurnNested(rules: Rules, scan: Scanners, s: string, o: Opening, allMatched: bool, maybeLazy: bool)
    requires Follows(rules, scan, s) && Nested(o.frames)
    ensures Nested(rules.turn(o, allMatched, maybeLazy).frames)
  {
    var kind := Last(o.frames).kind;
    AskTurn(rules, scan, s, o, allMatched, maybeLazy);
    AskChoice(rules, scan, s, kind, o.cursor, allMatched, maybeLazy);
    SetextOnParagraph(scan, s, kind, o.cursor, allMatched, maybeLazy);
    var chosen := rules.choose(kind, o.cursor, allMatched, maybeLazy);
    AskBegin(rules, scan, s, chosen, o.frames, o.cursor);
    BegunNested(scan, chosen, o.frames, s, o.cursor);
  }

  lemma {:induction false} OpenedNested(rules: Rules, scan: Scanners, s: string, o: Opening, allMatched: bool, maybeLazy: bool)
    requires Follows(rules, scan, s) && Nested(o.frames)
    ensures Nested(AllOpened(rules, o, allMatched, maybeLazy).frames)
    decreases rules.size - o.cursor.offset
  {
    var kind := Last(o.frames).kind;
    if o.more && kind != CodeBlock && kind != HtmlBlock {
      TurnNested(rules, scan, s, o, allMatched, maybeLazy);
      var next := rules.turn(o, allMatched, maybeLazy);
      if o.cursor.offset < next.cursor.offset <= rules.size {
        OpenedNested(rules, scan, s, next, allMatched, false);
      }
    }
  }

  lemma FilledNested(scan: Scanners, fs: Chain, s: string, c: Cursor)
    requires Nested(fs)
    ensures Nested(Filled(scan, fs, s, c))
  {
    var kind := Last(fs).kind;
    if kind == CodeBlock || kind == HtmlBlock || BlankAt(s, c) || AcceptsLines(kind) {
      SameNested(fs, Filled(scan, fs, s, c));
    } else {
      WithNested(scan, fs, NewParagraph(Rest(s, Behind(s, c, 0))));
    }
  }

  lemma TextedNested(rules: Rules, scan: Scanners, s: string, fs: Chain, n: nat, o: Opening)
    requires Follows(rules, scan, s) && Nested(fs) && Nested(o.frames)
    ensures Nested(Texted(rules, fs, n, o))
  {
    var settled := Settled(rules, fs, n, o.frames);
    SameNested(fs, Extended(fs, rules.rest(o.cursor)));
    SameNested(o.frames, settled);
    AskFill(rules, scan, s, settled, o.cursor);
    FilledNested(scan, settled, s, o.cursor);
  }

  lemma LineNested(rules: Rules, scan: Scanners, s: string, fs: Chain, c: Cursor)
    requires Follows(rules, scan, s) && Nested(fs)
    ensures Nested(Line(rules, fs, c))
  {
    var (n, closes, d) := Met(rules, fs, 1, c);
    if closes {
      SameNested(fs, fs[..|fs| - 1]);
    } else {
      var o := Opening(fs[..n], d, false, true);
      SameNested(fs, fs[..n]);
      OpenedNested(rules, scan, s, o, n == |fs|, Last(fs).kind == Paragraph);
      TextedNested(rules, scan, s, fs, n, AllOpened(rules, o, n == |fs|, Last(fs).kind == Paragraph));
    }
  }

  /** After any lines the open blocks start with the document, and each may hold the next. */
  lemma {:induction false} RunNested(scan: Scanners, lines: seq<string>)
    ensures Nested(Run(scan, lines))
    decreases |lines|
  {
    if lines != [] {
      var (n, input) := (|lines| - 1, Ended(lines[|lines| - 1]));
      RunNested(scan, lines[..n]);
      LineNested(RulesOf(scan, input), scan, input, Run(scan, lines[..n]), Cursor(TextStart(input, n), 0, false));
    }
  }

  // ---------- blank lines ----------

  // No scanner finds anything at a line ending.
  ghost predicate QuietAt(scan: Scanners, s: string, i: nat) {
    LineEnd(Peek(s, i)) ==>
      && scan.atxHeading(s, i) == 0 && scan.setextHeading(s, i) == 0 && scan.openFence(s, i) == 0
      && scan.htmlStart(s, i) == 0 && scan.htmlStart7(s, i) == 0
  }

  ghost predicate Quiet(scan: Scanners) {
    forall s, i: nat :: QuietAt(scan, s, i)
  }

  lemma BlankStartsNothing(scan: Scanners, s: string, kind: Kind, c: Cursor, allMatched: bool, maybeLazy: bool)
    requires Quiet(scan) && BlankAt(s, c)
    ensures ChoiceAt(scan, s, kind, c, allMatched, maybeLazy) == NoStart
  {
    assert QuietAt(scan, s, Nonspace(s, c.offset, c.column).0);
  }

  // The prefix of a kind that a blank line ends.
  predicate EndsOnBlank(kind: Kind) {
    kind == Paragraph || kind == Heading || kind == BlockQuote
  }

  lemma {:induction false} SkipBlank(s: string, c: Cursor, n: nat)
    ensures Nonspace(s, SkipColumns(s, c, n).offset, SkipColumns(s, c, n).column).0 == Nonspace(s, c.offset, c.column).0
    decreases n
  {
    if n > 0 && SpaceOrTab(Peek(s, c.offset)) {
      AdvanceWithin(s, c, 1);
      SkipBlank(s, Advance(s, c, 1, true), n - 1);
    }
  }

  lemma IndentBlank(s: string, c: Cursor, width: nat, hasChild: bool)
    requires BlankAt(s, c) && c.offset <= |s|
    ensures var m := IndentMatch(s, c, width, hasChild);
            BlankAt(s, m.cursor) && m.cursor.offset <= |s| && !m.closes
  {
    var (at, column) := Nonspace(s, c.offset, c.column);
    if column - c.column >= width {
      AdvanceWithin(s, c, width);
    } else {
      BytesOrColumns(s, c);
    }
  }

  lemma CodeBlank(scan: Scanners, fence: Fence, s: string, c: Cursor)
    requires BlankAt(s, c) && c.offset <= |s|
    ensures var m := CodeMatch(scan, fence, s, c);
            !m.closes ==> BlankAt(s, m.cursor) && m.cursor.offset <= |s|
  {
    if fence.fenced {
      SkipBlank(s, c, fence.offset);
      SkipWithin(s, c, fence.offset);
    } else {
      IndentBlank(s, c, 4, true);
    }
  }

  lemma {:induction false} SkipWithin(s: string, c: Cursor, n: nat)
    requires c.offset <= |s|
    ensures SkipColumns(s, c, n).offset <= |s|
    decreases n
  {
    if n > 0 && SpaceOrTab(Peek(s, c.offset)) {
      SkipWithin(s, Advance(s, c, 1, true), n - 1);
    }
  }

  lemma PrefixBlank(scan: Scanners, f: Frame, s: string, c: Cursor)
    requires BlankAt(s, c) && c.offset <= |s|
    ensures var m := Prefixed(scan, f, s, c);
            && (m.matched ==> !EndsOnBlank(f.kind))
            && (m.closes ==> f.kind == CodeBlock)
            && (!m.closes ==> BlankAt(s, m.cursor) && m.cursor.offset <= |s|)
  {
    match f.kind
    case Item => IndentBlank(s, c, f.list.markerOffset + f.list.padding, f.children > 0);
    case CodeBlock => CodeBlank(scan, f.fence, s, c);
    case _ =>
  }

  // What a blank line leaves: blocks that were open before, none of them ended by it.
  predicate LeftByBlank(fs: Chain, gs: Chain) {
    SameKinds(fs, gs) && forall i | 0 <= i < |gs| :: !EndsOnBlank(gs[i].kind)
  }

  lemma {:induction false} MetBlank(rules: Rules, scan: Scanners, s: string, fs: Chain, i: nat, c: Cursor)
    requires Follows(rules, scan, s) && Nested(fs) && 0 < i <= |fs| && BlankAt(s, c) && c.offset <= |s|
    requires LeftByBlank(fs, fs[..i])
    ensures var (n, closes, d) := Met(rules, fs, i, c);
            LeftByBlank(fs, fs[..n]) && if closes then n == |fs| else BlankAt(s, d)
    decreases |fs| - i
  {
    if i < |fs| {
      AskPrefix(rules, scan, s, fs[i], c);
      PrefixBlank(scan, fs[i], s, c);
      var m := rules.prefix(fs[i], c);
      if m.matched {
        assert forall j | 0 <= j < i + 1 :: j < i ==> fs[j] == fs[..i][j];
        if m.closes {
          assert i + 1 < |fs| ==> Holds(fs, i);
        } else {
          MetBlank(rules, scan, s, fs, i + 1, m.cursor);
        }
      }
    }
  }

  lemma BlankTurn(rules: Rules, scan: Scanners, s: string, o: Opening, allMatched: bool, maybeLazy: bool)
    requires Follows(rules, scan, s) && Quiet(scan) && BlankAt(s, o.cursor)
    ensures rules.turn(o, allMatched, maybeLazy) == o.(more := false)
  {
    var kind := Last(o.frames).kind;
    AskTurn(rules, scan, s, o, allMatched, maybeLazy);
    AskChoice(rules, scan, s, kind, o.cursor, allMatched, maybeLazy);
    BlankStartsNothing(scan, s, kind, o.cursor, allMatched, maybeLazy);
    AskBegin(rules, scan, s, NoStart, o.frames, o.cursor);
  }

  lemma BlankContinued(rules: Rules, scan: Scanners, s: string, fs: Chain, n: nat, c: Cursor)
    requires Follows(rules, scan, s) && Quiet(scan) && BlankAt(s, c) && 0 < n <= |fs| && LeftByBlank(fs, fs[..n])
    ensures LeftByBlank(fs, Continued(rules, fs, n, c))
  {
    var o := Opening(fs[..n], c, false, true);
    BlankTurn(rules, scan, s, o, n == |fs|, Last(fs).kind == Paragraph);
    var settled := Settled(rules, fs, n, fs[..n]);
    AskText(rules, scan, s, c);
    AskFill(rules, scan, s, settled, c);
    assert SameKinds(fs[..n], settled);
    assert SameKinds(settled, Filled(scan, settled, s, c));
  }

  /** A blank line starts nothing and ends every paragraph, heading and quote; no line goes on lazily over it. */
  lemma BlankLine(scan: Scanners, fs: Chain, line: string, lineNumber: nat)
    requires Quiet(scan) && Nested(fs) && BlankAt(Ended(line), Cursor(TextStart(Ended(line), lineNumber), 0, false))
    ensures LeftByBlank(fs, Processed(scan, fs, line, lineNumber))
  {
    var (input, c) := (Ended(line), Cursor(TextStart(Ended(line), lineNumber), 0, false));
    var rules := RulesOf(scan, input);
    MetBlank(rules, scan, input, fs, 1, c);
    var (n, closes, d) := Met(rules, fs, 1, c);
    if closes {
      assert forall j | 0 <= j < |fs| - 1 :: fs[j] == fs[..n][j];
    } else {
      BlankContinued(rules, scan, input, fs, n, d);
    }
  }
}
