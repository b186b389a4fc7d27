/** One line through the open blocks of blocks.c, on values: a frame for each open block, outermost first. */
module BlockLines {

  import opened Common
  import opened BlockScan
  import opened BlockTree
  import opened Columns
  import opened LineCursor

  // ---------- the prefixes of the open blocks ----------

  datatype Match = Match(matched: bool, closes: bool, cursor: Cursor)

  // The length of a closing fence at the first non-space.
  function FenceEnd(scan: Scanners, fence: Fence, input: string, indent: nat, at: nat): nat {
    if indent <= 3 && Peek(input, at) == fence.mark then scan.closeFence(input, at) else 0
  }

  // Up to n columns of spaces and tabs.
  function SkipColumns(input: string, c: Cursor, n: nat): Cursor
    decreases n
  {
    if n == 0 || !SpaceOrTab(Peek(input, c.offset)) then c else SkipColumns(input, Advance(input, c, 1, true), n - 1)
  }

  // parse_node_item_prefix
  function IndentMatch(input: string, c: Cursor, width: nat, hasChild: bool): Match {
    var (at, column) := Nonspace(input, c.offset, c.column);
    if column - c.column >= width then Match(true, false, Advance(input, c, width, true))
    else if LineEnd(Peek(input, at)) && hasChild then Match(true, false, Advance(input, c, at - c.offset, false))
    else Match(false, false, c)
  }

  // parse_code_block_prefix
  function CodeMatch(scan: Scanners, fence: Fence, input: string, c: Cursor): Match {
    var (at, column) := Nonspace(input, c.offset, c.column);
    var length := FenceEnd(scan, fence, input, column - c.column, at);
    if !fence.fenced then IndentMatch(input, c, 4, true)
    else if length >= fence.length then Match(true, true, Advance(input, c, length, false))
    else Match(true, false, SkipColumns(input, c, fence.offset))
  }

  // The switch of check_open_blocks.
  function Prefixed(scan: Scanners, f: Frame, input: string, c: Cursor): (m: Match)
    ensures m.closes ==> f.kind == CodeBlock && m.matched
  {
    var (at, column) := Nonspace(input, c.offset, c.column);
    var blank := LineEnd(Peek(input, at));
    match f.kind
    case BlockQuote =>
      if column - c.column <= 3 && Peek(input, at) == '>' then Match(true, false, BehindMarker(input, at, column)) else Match(false, false, c)
    case Item => IndentMatch(input, c, f.list.markerOffset + f.list.padding, f.children > 0)
    case CodeBlock => CodeMatch(scan, f.fence, input, c)
    case Heading => Match(false, false, c)
    case HtmlBlock => Match(f.htmlType <= 5 || !blank, false, c)
    case Paragraph => Match(!blank, false, c)
    case _ => Match(true, false, c)
  }

  // ---------- closing and adding blocks ----------

  // A paragraph of nothing but definitions is freed when it is closed.
  predicate Freed(scan: Scanners, f: Frame) {
    f.kind == Paragraph && BlankText(scan.definitions(f.content))
  }

  // The frame at i has lost a child.
  function OneLess(fs: Chain, i: nat): (r: Chain)
    ensures |r| == |fs|
  {
    if i < |fs| && fs[i].children > 0 then fs[i := fs[i].(children := fs[i].children - 1)] else fs
  }

  // The last frame has got a child.
  function OneMore(fs: Chain): Chain {
    fs[|fs| - 1 := Last(fs).(children := Last(fs).children + 1)]
  }

  // finalize, of the innermost block
  function Closed(scan: Scanners, fs: Chain): (r: Chain)
    requires |fs| > 1
    ensures |r| == |fs| - 1
  {
    var outer: Chain := fs[..|fs| - 1];
    if Freed(scan, Last(fs)) then OneLess(outer, |outer| - 1) else outer
  }

  // The block that takes a child of a kind and those that hold it, the child counted.
  function Room(scan: Scanners, fs: Chain, kind: Kind): (r: Chain)
    decreases |fs|
  {
    if |fs| == 1 || CanContain(Last(fs).kind, kind) then OneMore(fs)
    else Room(scan, Closed(scan, fs), kind)
  }

  // add_child
  function With(scan: Scanners, fs: Chain, f: Frame): (r: Chain)
    ensures Last(r) == f
  {
    Room(scan, fs, f.kind) + [f]
  }

  // The list that an item continues, or a new one.
  function ListOf(scan: Scanners, fs: Chain, data: ListData): Chain {
    if Last(fs).kind == List && ListsMatch(Last(fs).list, data) then fs else With(scan, fs, New(List).(list := data))
  }

  function WithItem(scan: Scanners, fs: Chain, data: ListData): Chain {
    With(scan, ListOf(scan, fs, data), New(Item).(list := data))
  }

  // The paragraph above a setext underline becomes a heading unless it was all definitions.
  function Underlined(scan: Scanners, f: Frame): Frame {
    var text := scan.definitions(f.content);
    f.(content := text, kind := if BlankText(text) then f.kind else Heading)
  }

  // ---------- the blocks a line starts ----------

  function FenceAt(input: string, c: Cursor, length: nat): Fence {
    var at := Nonspace(input, c.offset, c.column).0;
    Fence(true, Peek(input, at), if length > 255 then 255 else length, at - c.offset)
  }

  // The data of an item whose marker stands at the first non-space, and the cursor behind its padding.
  function ItemAt(input: string, c: Cursor, matched: nat, data: ListData): (ListData, Cursor) {
    var (at, column) := Nonspace(input, c.offset, c.column);
    var (padding, d) := ItemStart(input, Cursor(at + matched, column + matched, false), matched);
    (data.(padding := padding, markerOffset := column - c.column), d)
  }

  /** What each choice of open_new_blocks does to the open blocks and the cursor. */
  function Begun(scan: Scanners, chosen: Start, fs: Chain, input: string, c: Cursor): (Chain, Cursor) {
    match chosen
    case NoStart => (fs, c)
    case Quote =>
      var (at, column) := Nonspace(input, c.offset, c.column);
      (With(scan, fs, New(BlockQuote)), BehindMarker(input, at, column))
    case Atx(length) => (With(scan, fs, New(Heading)), Behind(input, c, length))
    case CodeFence(length) => (With(scan, fs, New(CodeBlock).(fence := FenceAt(input, c, length))), Behind(input, c, length))
    case Html(htmlType) => (With(scan, fs, New(HtmlBlock).(htmlType := htmlType)), c)
    case Setext =>
      var heading := Underlined(scan, Last(fs));
      (fs[|fs| - 1 := heading], if heading.kind == Heading then BeforeEnd(input, c) else c)
    case Rule => (With(scan, fs, New(ThematicBreak)), BeforeEnd(input, c))
    case Bullet(NoMarker) => (fs, c)
    case Bullet(Marker(matched, data)) =>
      var (item, d) := ItemAt(input, c, matched, data);
      (WithItem(scan, fs, item), d)
    case Indented => (With(scan, fs, New(CodeBlock)), PastIndent(input, c))
  }

  // A block without text or children that is not the document.
  predicate WellDescribed(f: Frame) {
    f.kind != Document && f.content == "" && f.children == 0
  }

  // The block that a choice adds, as its first line describes it; an item brings its list along.
  function FrameFor(chosen: Start, input: string, c: Cursor): (f: Frame)
    ensures WellDescribed(f)
  {
    match chosen
    case Quote => New(BlockQuote)
    case Atx(_) => New(Heading)
    case CodeFence(length) => New(CodeBlock).(fence := FenceAt(input, c, length))
    case Html(htmlType) => New(HtmlBlock).(htmlType := htmlType)
    case Rule => New(ThematicBreak)
    case Bullet(Marker(matched, data)) => New(Item).(list := ItemAt(input, c, matched, data).0)
    case _ => New(CodeBlock)
  }

  // What a choice says of the kind of block that is filled next.
  predicate Fills(chosen: Start, kind: Kind) {
    match chosen
    case Html(_) => kind == HtmlBlock
    case Atx(_) | CodeFence(_) | Indented | Setext => AcceptsLines(kind)
    case _ => true
  }

  // The cursor behind what starts a block.
  function CursorFor(chosen: Start, input: string, c: Cursor): Cursor {
    match chosen
    case Quote => var (at, column) := Nonspace(input, c.offset, c.column); BehindMarker(input, at, column)
    case Atx(length) => Behind(input, c, length)
    case CodeFence(length) => Behind(input, c, length)
    case Rule => BeforeEnd(input, c)
    case Bullet(Marker(matched, data)) => ItemAt(input, c, matched, data).1
    case Indented => PastIndent(input, c)
    case _ => c
  }

  // The open blocks with the one that a choice adds.
  function WithStart(scan: Scanners, fs: Chain, f: Frame): Chain {
    if f.kind == Item then WithItem(scan, fs, f.list) else With(scan, fs, f)
  }

  lemma BegunParts(scan: Scanners, chosen: Start, fs: Chain, input: string, c: Cursor)
    requires chosen != NoStart && chosen != Setext && chosen != Bullet(NoMarker)
    ensures Begun(scan, chosen, fs, input, c) == (WithStart(scan, fs, FrameFor(chosen, input, c)), CursorFor(chosen, input, c))
  {
  }

  function ChoiceAt(scan: Scanners, input: string, kind: Kind, c: Cursor, allMatched: bool, maybeLazy: bool): Start {
    var (at, column) := Nonspace(input, c.offset, c.column);
    Choice(scan, input, at, column - c.column, LineEnd(Peek(input, at)), kind, allMatched, maybeLazy)
  }

  // ---------- the text of a line ----------

  // What add_line appends.
  function Rest(input: string, c: Cursor): string {
    if c.offset < |input| then Added(input, c) else ""
  }

  lemma RestIsAdded(input: string, c: Cursor)
    requires c.offset <= |input| && (c.partial ==> c.offset < |input|)
    ensures Rest(input, c) == Added(input, c)
  {
  }

  function Extended(fs: Chain, text: string): Chain {
    fs[|fs| - 1 := Last(fs).(content := Last(fs).content + text)]
  }

  function NewParagraph(text: string): Frame {
    New(Paragraph).(content := text)
  }

  // The block that takes the rest of the line.
  function Filled(scan: Scanners, fs: Chain, input: string, c: Cursor): Chain {
    var at := Nonspace(input, c.offset, c.column).0;
    var kind := Last(fs).kind;
    if kind == CodeBlock then Extended(fs, Rest(input, c))
    else if kind == HtmlBlock then
      if scan.htmlEnd(Last(fs).htmlType, input, at) && |fs| > 1 then fs[..|fs| - 1] else Extended(fs, Rest(input, c))
    else if LineEnd(Peek(input, at)) then fs
    else if AcceptsLines(kind) then Extended(fs, Rest(input, Behind(input, c, 0)))
    else With(scan, fs, NewParagraph(Rest(input, Behind(input, c, 0))))
  }

  lemma FilledHtml(scan: Scanners, fs: Chain, input: string, c: Cursor)
    requires Last(fs).kind == HtmlBlock && |fs| > 1
    ensures var (end, more) := (scan.htmlEnd(Last(fs).htmlType, input, Nonspace(input, c.offset, c.column).0), Extended(fs, Rest(input, c)));
            Filled(scan, fs, input, c) == if end then Closed(scan, more) else more
  {
    var more := Extended(fs, Rest(input, c));
    assert more[..|more| - 1] == fs[..|fs| - 1];
  }

  lemma WithText(scan: Scanners, fs: Chain, text: string)
    ensures Extended(With(scan, fs, New(Paragraph)), text) == With(scan, fs, NewParagraph(text))
  {
    assert "" + text == text;
  }

  // Nothing but spaces and tabs is left.
  predicate BlankAt(input: string, c: Cursor) {
    LineEnd(Peek(input, Nonspace(input, c.offset, c.column).0))
  }

  // ---------- lines ----------

  // The open blocks, the cursor, whether the line started a block, and whether it may start another one inside.
  datatype Opening = Opening(frames: Chain, cursor: Cursor, begun: bool, more: bool)

  /** How one line reads: what its prefixes, its starts of blocks and its text do to the open blocks and the cursor. */
  datatype Rules = Rules(
    prefix: (Frame, Cursor) -> Match,
    choose: (Kind, Cursor, bool, bool) -> Start,
    frame: (Start, Cursor) -> Frame,
    move: (Start, Cursor) -> Cursor,
    add: (Chain, Frame) -> Chain,
    begin: (Start, Chain, Cursor) -> (Chain, Cursor),
    turn: (Opening, bool, bool) -> Opening,
    fill: (Chain, Cursor) -> Chain,
    freed: Frame -> bool,
    blank: Cursor -> bool,
    rest: Cursor -> string,
    size: nat)

  // How many of the frames are matched when the first i are, whether a fence ends there, and the cursor behind the prefixes.
  function Met(rules: Rules, fs: Chain, i: nat, c: Cursor): (r: (nat, bool, Cursor))
    ensures i <= |fs| ==> i <= r.0 <= |fs|
    ensures r.1 ==> i < r.0 <= |fs|
    decreases |fs| - i
  {
    if i >= |fs| then (i, false, c)
    else
      var m := rules.prefix(fs[i], c);
      if !m.matched then (i, false, m.cursor)
      else if m.closes then (i + 1, true, m.cursor)
      else Met(rules, fs, i + 1, m.cursor)
  }

  // What a choice leads to.
  function Turned(rules: Rules, o: Opening, chosen: Start): Opening {
    var (frames, cursor) := rules.begin(chosen, o.frames, o.cursor);
    Opening(frames, cursor, o.begun || (chosen != NoStart && chosen != Setext), chosen != NoStart && !AcceptsLines(Last(frames).kind))
  }

  // One turn of open_new_blocks.
  function Turn(rules: Rules, o: Opening, allMatched: bool, maybeLazy: bool): Opening {
    Turned(rules, o, rules.choose(Last(o.frames).kind, o.cursor, allMatched, maybeLazy))
  }

  // open_new_blocks; only an HTML block, the last to be started, leaves the cursor where it is.
  function AllOpened(rules: Rules, o: Opening, allMatched: bool, maybeLazy: bool): Opening
    decreases rules.size - o.cursor.offset
  {
    var kind := Last(o.frames).kind;
    if !o.more || kind == CodeBlock || kind == HtmlBlock then o
    else
      var next := rules.turn(o, allMatched, maybeLazy);
      if o.cursor.offset < next.cursor.offset <= rules.size then AllOpened(rules, next, allMatched, false) else next
  }

  // The blocks below the first n are closed; all that can be freed is the innermost.
  function Settled(rules: Rules, fs: Chain, n: nat, frames: Chain): Chain {
    if n + 1 == |fs| && rules.freed(Last(fs)) then OneLess(frames, if n > 0 then n - 1 else 0) else frames
  }

  // add_text_to_container
  function Texted(rules: Rules, fs: Chain, n: nat, o: Opening): Chain {
    if n < |fs| && !o.begun && !rules.blank(o.cursor) && Last(fs).kind == Paragraph then Extended(fs, rules.rest(o.cursor))
    else rules.fill(Settled(rules, fs, n, o.frames), o.cursor)
  }

  // Of the blocks before the line, only the innermost matters unless it goes on lazily.
  lemma TextedSame(rules: Rules, fs: Chain, gs: Chain, n: nat, o: Opening)
    requires |fs| == |gs| && (n < |fs| ==> Last(fs) == Last(gs) && (!o.begun ==> fs == gs))
    ensures Texted(rules, fs, n, o) == Texted(rules, gs, n, o)
  {
  }

  // What a line does behind the prefixes of the first n blocks.
  function Continued(rules: Rules, fs: Chain, n: nat, c: Cursor): Chain
    requires 0 < n <= |fs|
  {
    Texted(rules, fs, n, AllOpened(rules, Opening(fs[..n], c, false, true), n == |fs|, Last(fs).kind == Paragraph))
  }

  // A closing fence ends its code block, and nothing more is on its line.
  function Line(rules: Rules, fs: Chain, c: Cursor): Chain {
    var (n, closes, d) := Met(rules, fs, 1, c);
    if !closes then Continued(rules, fs, n, d)
    else if |fs| > 1 then fs[..|fs| - 1] else fs
  }

  // That some rules are those of a line, with a marker for each use so that a proof looks up only those it asks for.
  ghost predicate Follows(rules: Rules, scan: Scanners, input: string) {
    && rules.size == |input|
    && (forall f, c {:trigger PrefixAsked(f, c)} :: PrefixAsked(f, c) ==> rules.prefix(f, c) == Prefixed(scan, f, input, c))
    && (forall kind, c, all, lazy {:trigger ChoiceAsked(kind, c, all, lazy)} :: ChoiceAsked(kind, c, all, lazy) ==>
          rules.choose(kind, c, all, lazy) == ChoiceAt(scan, input, kind, c, all, lazy))
    && (forall chosen, c {:trigger PartsAsked(chosen, c)} :: PartsAsked(chosen, c) ==>
          rules.frame(chosen, c) == FrameFor(chosen, input, c) && rules.move(chosen, c) == CursorFor(chosen, input, c))
    && (forall fs, f {:trigger AddAsked(fs, f)} :: AddAsked(fs, f) ==> rules.add(fs, f) == WithStart(scan, fs, f))
    && (forall chosen, fs, c {:trigger BeginAsked(chosen, fs, c)} :: BeginAsked(chosen, fs, c) ==>
          rules.begin(chosen, fs, c) == Begun(scan, chosen, fs, input, c))
    && (forall o, all, lazy {:trigger TurnAsked(o, all, lazy)} :: TurnAsked(o, all, lazy) ==>
          rules.turn(o, all, lazy) == Turn(rules, o, all, lazy))
    && (forall fs, c {:trigger FillAsked(fs, c)} :: FillAsked(fs, c) ==> rules.fill(fs, c) == Filled(scan, fs, input, c))
    && (forall f {:trigger FreedAsked(f)} :: FreedAsked(f) ==> rules.freed(f) == Freed(scan, f))
    && (forall c {:trigger TextAsked(c)} :: TextAsked(c) ==> rules.blank(c) == BlankAt(input, c) && rules.rest(c) == Rest(input, c))
  }

  predicate PrefixAsked(f: Frame, c: Cursor) { true }
  predicate ChoiceAsked(kind: Kind, c: Cursor, all: bool, lazy: bool) { true }
  predicate PartsAsked(chosen: Start, c: Cursor) { true }
  predicate AddAsked(fs: Chain, f: Frame) { true }
  predicate BeginAsked(chosen: Start, fs: Chain, c: Cursor) { true }
  predicate TurnAsked(o: Opening, all: bool, lazy: bool) { true }
  predicate FillAsked(fs: Chain, c: Cursor) { true }
  predicate FreedAsked(f: Frame) { true }
  predicate TextAsked(c: Cursor) { true }

  // The rules of a line, spelled out.
  function ExplicitRules(scan: Scanners, input: string): Rules {
    var still := Rules(
      (f, c) => Prefixed(scan, f, input, c),
      (kind, c, all, lazy) => ChoiceAt(scan, input, kind, c, all, lazy),
      (chosen, c) => FrameFor(chosen, input, c),
      (chosen, c) => CursorFor(chosen, input, c),
      (fs, f) => WithStart(scan, fs, f),
      (chosen, fs, c) => Begun(scan, chosen, fs, input, c),
      (o, all, lazy) => o,
      (fs, c) => Filled(scan, fs, input, c),
      f => Freed(scan, f),
      c => BlankAt(input, c),
      c => Rest(input, c),
      |input|);
    still.(turn := (o, all, lazy) => Turn(still, o, all, lazy))
  }

  lemma ExplicitFollow(scan: Scanners, input: string)
    ensures Follows(ExplicitRules(scan, input), scan, input)
  {
  }

  // The rules of a line.
  ghost function RulesOf(scan: Scanners, input: string): (rules: Rules)
    ensures Follows(rules, scan, input)
  {
    ExplicitFollow(scan, input);
    var rules :| Follows(rules, scan, input);
    rules
  }

  lemma AskPrefix(rules: Rules, scan: Scanners, input: string, f: Frame, c: Cursor)
    requires Follows(rules, scan, input)
    ensures rules.prefix(f, c) == Prefixed(scan, f, input, c)
  {
    var _ := PrefixAsked(f, c);
  }

  lemma AskChoice(rules: Rules, scan: Scanners, input: string, kind: Kind, c: Cursor, all: bool, lazy: bool)
    requires Follows(rules, scan, input)
    ensures rules.choose(kind, c, all, lazy) == ChoiceAt(scan, input, kind, c, all, lazy)
  {
    var _ := ChoiceAsked(kind, c, all, lazy);
  }

  lemma AskBegin(rules: Rules, scan: Scanners, input: string, chosen: Start, fs: Chain, c: Cursor)
    requires Follows(rules, scan, input)
    ensures rules.begin(chosen, fs, c) == Begun(scan, chosen, fs, input, c)
  {
    var _ := BeginAsked(chosen, fs, c);
  }

  lemma AskParts(rules: Rules, scan: Scanners, input: string, chosen: Start, c: Cursor)
    requires Follows(rules, scan, input)
    ensures rules.frame(chosen, c) == FrameFor(chosen, input, c) && rules.move(chosen, c) == CursorFor(chosen, input, c)
  {
    var _ := PartsAsked(chosen, c);
  }

  lemma AskAdd(rules: Rules, scan: Scanners, input: string, fs: Chain, f: Frame)
    requires Follows(rules, scan, input)
    ensures rules.add(fs, f) == WithStart(scan, fs, f)
  {
    var _ := AddAsked(fs, f);
  }

  // What a choice does is done by moving the cursor and then adding the block.
  lemma BeginByParts(rules: Rules, scan: Scanners, input: string, chosen: Start, fs: Chain, c: Cursor)
    requires Follows(rules, scan, input) && chosen != NoStart && chosen != Setext && chosen != Bullet(NoMarker)
    ensures rules.begin(chosen, fs, c) == (rules.add(fs, rules.frame(chosen, c)), rules.move(chosen, c))
  {
    AskBegin(rules, scan, input, chosen, fs, c);
    AskParts(rules, scan, input, chosen, c);
    AskAdd(rules, scan, input, fs, rules.frame(chosen, c));
    BegunParts(scan, chosen, fs, input, c);
  }

  lemma AskTurn(rules: Rules, scan: Scanners, input: string, o: Opening, all: bool, lazy: bool)
    requires Follows(rules, scan, input)
    ensures rules.turn(o, all, lazy) == Turn(rules, o, all, lazy)
  {
    var _ := TurnAsked(o, all, lazy);
  }

  lemma AskFill(rules: Rules, scan: Scanners, input: string, fs: Chain, c: Cursor)
    requires Follows(rules, scan, input)
    ensures rules.fill(fs, c) == Filled(scan, fs, input, c)
  {
    var _ := FillAsked(fs, c);
  }

  lemma AskFreed(rules: Rules, scan: Scanners, input: string, f: Frame)
    requires Follows(rules, scan, input)
    ensures rules.freed(f) == Freed(scan, f)
  {
    var _ := FreedAsked(f);
  }

  lemma AskText(rules: Rules, scan: Scanners, input: string, c: Cursor)
    requires Follows(rules, scan, input)
    ensures rules.blank(c) == BlankAt(input, c) && rules.rest(c) == Rest(input, c)
  {
    var _ := TextAsked(c);
  }

  // ---------- any rules that follow give the same ----------

  lemma {:induction false} MetSame(a: Rules, b: Rules, scan: Scanners, input: string, fs: Chain, i: nat, c: Cursor)
    requires Follows(a, scan, input) && Follows(b, scan, input)
    ensures Met(a, fs, i, c) == Met(b, fs, i, c)
    decreases |fs| - i
  {
    if i < |fs| {
      AskPrefix(a, scan, input, fs[i], c);
      AskPrefix(b, scan, input, fs[i], c);
      MetSame(a, b, scan, input, fs, i + 1, a.prefix(fs[i], c).cursor);
    }
  }

  lemma TurnSame(a: Rules, b: Rules, scan: Scanners, input: string, o: Opening, all: bool, lazy: bool)
    requires Follows(a, scan, input) && Follows(b, scan, input)
    ensures a.turn(o, all, lazy) == b.turn(o, all, lazy)
  {
    AskTurn(a, scan, input, o, all, lazy);
    AskTurn(b, scan, input, o, all, lazy);
    AskChoice(a, scan, input, Last(o.frames).kind, o.cursor, all, lazy);
    AskChoice(b, scan, input, Last(o.frames).kind, o.cursor, all, lazy);
    var chosen := a.choose(Last(o.frames).kind, o.cursor, all, lazy);
    AskBegin(a, scan, input, chosen, o.frames, o.cursor);
    AskBegin(b, scan, input, chosen, o.frames, o.cursor);
  }

  lemma {:induction false} OpenedSame(a: Rules, b: Rules, scan: Scanners, input: string, o: Opening, all: bool, lazy: bool)
    requires Follows(a, scan, input) && Follows(b, scan, input)
    ensures AllOpened(a, o, all, lazy) == AllOpened(b, o, all, lazy)
    decreases a.size - o.cursor.offset
  {
    TurnSame(a, b, scan, input, o, all, lazy);
    var next := a.turn(o, all, lazy);
    if o.cursor.offset < next.cursor.offset <= a.size {
      OpenedSame(a, b, scan, input, next, all, false);
    }
  }

  lemma TextedAlike(a: Rules, b: Rules, scan: Scanners, input: string, fs: Chain, n: nat, o: Opening)
    requires Follows(a, scan, input) && Follows(b, scan, input)
    ensures Texted(a, fs, n, o) == Texted(b, fs, n, o)
  {
    AskText(a, scan, input, o.cursor);
    AskText(b, scan, input, o.cursor);
    AskFreed(a, scan, input, Last(fs));
    AskFreed(b, scan, input, Last(fs));
    var settled := Settled(a, fs, n, o.frames);
    AskFill(a, scan, input, settled, o.cursor);
    AskFill(b, scan, input, settled, o.cursor);
  }

  lemma LineSame(a: Rules, b: Rules, scan: Scanners, input: string, fs: Chain, c: Cursor)
    requires Follows(a, scan, input) && Follows(b, scan, input)
    ensures Line(a, fs, c) == Line(b, fs, c)
  {
    MetSame(a, b, scan, input, fs, 1, c);
    var (n, closes, d) := Met(a, fs, 1, c);
    if !closes {
      var o := Opening(fs[..n], d, false, true);
      OpenedSame(a, b, scan, input, o, n == |fs|, Last(fs).kind == Paragraph);
      TextedAlike(a, b, scan, input, fs, n, AllOpened(a, o, n == |fs|, Last(fs).kind == Paragraph));
    }
  }

  /** What a line does, with its rules spelled out. */
  lemma ProcessedExplicit(scan: Scanners, fs: Chain, line: string, lineNumber: nat)
    ensures Processed(scan, fs, line, lineNumber)
         == Line(ExplicitRules(scan, Ended(line)), fs, Cursor(TextStart(Ended(line), lineNumber), 0, false))
  {
    var input := Ended(line);
    ExplicitFollow(scan, input);
    LineSame(RulesOf(scan, input), ExplicitRules(scan, input), scan, input, fs, Cursor(TextStart(input, lineNumber), 0, false));
  }

  // Every line gets an ending.
  function Ended(line: string): string {
    if line == "" || !LineEnd(line[|line| - 1]) then line + "\n" else line
  }

  /** S_process_line, on the open blocks. */
  ghost function Processed(scan: Scanners, fs: Chain, line: string, lineNumber: nat): Chain {
    Line(RulesOf(scan, Ended(line)), fs, Cursor(TextStart(Ended(line), lineNumber), 0, false))
  }

  // What the line makes of the open blocks, looked up on demand.
  ghost predicate IsLine(scan: Scanners, input: string, fs: Chain, c: Cursor, after: Chain) {
    forall rules {:trigger Follows(rules, scan, input)} :: rules == RulesOf(scan, input) ==> after == Line(rules, fs, c)
  }

  lemma ProcessedIs(scan: Scanners, fs: Chain, line: string, lineNumber: nat, input: string, c: Cursor) returns (after: Chain)
    requires input == Ended(line) && c == Cursor(TextStart(input, lineNumber), 0, false)
    ensures after == Processed(scan, fs, line, lineNumber) && IsLine(scan, input, fs, c, after)
  {
    after := Line(RulesOf(scan, input), fs, c);
  }

  lemma LineRules(scan: Scanners, input: string, fs: Chain, c: Cursor, after: Chain) returns (rules: Rules)
    requires IsLine(scan, input, fs, c, after)
    ensures Follows(rules, scan, input) && after == Line(rules, fs, c)
  {
    rules := RulesOf(scan, input);
  }

  /** The blocks that are open after some lines. */
  ghost function Run(scan: Scanners, lines: seq<string>): Chain {
    if lines == [] then [New(Document)]
    else Processed(scan, Run(scan, lines[..|lines| - 1]), lines[|lines| - 1], |lines| - 1)
  }

  lemma NextRun(scan: Scanners, lines: seq<string>, i: nat)
    requires i < |lines|
    ensures Run(scan, lines[..i + 1]) == Processed(scan, Run(scan, lines[..i]), lines[i], i)
  {
    assert lines[..i + 1][..i] == lines[..i];
  }
}
