/** Section 5.1 of the GitHub Flavored Markdown Spec on whole runs: a marker before every line puts all the blocks in a quote. */
module QuoteLaw {

  import opened Common
  import opened BlockScan
  import opened BlockTree
  import opened BlockLines
  import opened BlockLaws
  import opened Columns
  import opened LineCursor
  import opened LineShift
  import opened NestLaw

  const MARKER := "> "

  // Behind the marker and its space.
  const BEHIND := Cursor(2, 2, false)

  function Quoted(line: string): string {
    MARKER + line
  }

  // A quote, and the document that holds it.
  function QuoteIn(d: Frame): Shell {
    Shell([d], New(BlockQuote))
  }

  function Wrap(d: Frame, fs: Chain): Chain {
    Nest(QuoteIn(d), fs)
  }

  // ---------- one line ----------

  // The marker and its space are the prefix of the quote.
  lemma MarkerPrefix(scan: Scanners, s: string, f: Frame)
    requires f.kind == BlockQuote
    ensures Prefixed(scan, f, Quoted(s), START) == Match(true, false, BEHIND)
    ensures BehindMarker(Quoted(s), 0, 0) == BEHIND && Nonspace(Quoted(s), 0, 0) == (0, 0)
  {
    var q := Quoted(s);
    assert q[0] == '>' && q[1] == ' ';
    OneByte(q, Cursor(1, 1, false));
  }

  lemma QuoteTakes(behind: Rules, scan: Scanners, s: string, d: Frame, fs: Chain)
    requires Follows(behind, scan, Quoted(s))
    ensures Taken(behind, QuoteIn(d), fs, BEHIND)
  {
    var f := Wrap(d, fs)[1];
    AskPrefix(behind, scan, Quoted(s), f, START);
    MarkerPrefix(scan, s, f);
  }

  // The first line opens the quote.
  lemma QuoteOpens(behind: Rules, scan: Scanners, s: string)
    requires Follows(behind, scan, Quoted(s))
    ensures Opens(behind, QuoteIn(New(Document).(children := 1)), BEHIND)
  {
    var fs: Chain := [New(Document)];
    var o := Opening(fs, START, false, true);
    MarkerPrefix(scan, s, New(BlockQuote));
    AskTurn(behind, scan, Quoted(s), o, true, false);
    AskChoice(behind, scan, Quoted(s), Document, START, true, false);
    AskBegin(behind, scan, Quoted(s), Quote, fs, START);
    assert With(scan, fs, New(BlockQuote)) == Wrap(New(Document).(children := 1), fs);
  }

  lemma QuotedStart(line: string, lineNumber: nat)
    ensures Ended(Quoted(line)) == Quoted(Ended(line)) && TextStart(Ended(Quoted(line)), lineNumber) == 0
  {
    EndedBehind(MARKER, line);
    var input := Ended(Quoted(line));
    assert |input| >= 3 ==> input[..3][0] == '>' && BYTE_ORDER_MARK[0] != '>';
  }

  /** One line: the marker puts what the line does to the open blocks into the quote. */
  lemma QuoteProcessed(scan: Scanners, d: Frame, fs: Chain, line: string, lineNumber: nat)
    requires Local(scan) && Plain(line, lineNumber) && Rooted(fs)
    ensures Processed(scan, Wrap(d, fs), Quoted(line), lineNumber) == Wrap(d, Processed(scan, fs, line, lineNumber))
    ensures Rooted(Processed(scan, fs, line, lineNumber))
  {
    var (s, behind) := (Ended(line), RulesOf(scan, Ended(Quoted(line))));
    QuotedStart(line, lineNumber);
    LinePair(scan, MARKER, line);
    QuoteTakes(behind, scan, s, d, fs);
    NestLine(RulesOf(scan, s), behind, scan, MARKER, s, QuoteIn(d), fs, BEHIND);
  }

  // The first line opens the quote.
  lemma QuoteFirst(scan: Scanners, line: string)
    requires Local(scan) && Plain(line, 0)
    ensures var fs: Chain := [New(Document)];
            Processed(scan, fs, Quoted(line), 0) == Wrap(New(Document).(children := 1), Processed(scan, fs, line, 0))
            && Rooted(Processed(scan, fs, line, 0))
  {
    var (s, behind) := (Ended(line), RulesOf(scan, Ended(Quoted(line))));
    QuotedStart(line, 0);
    LinePair(scan, MARKER, line);
    QuoteOpens(behind, scan, s);
    NestFirst(RulesOf(scan, s), behind, scan, MARKER, s, QuoteIn(New(Document).(children := 1)), BEHIND);
  }

  // ---------- whole runs ----------

  // The marker before every line but the lazy ones.
  function AllQuoted(lines: seq<string>, lazy: set<nat>): (qs: seq<string>)
    ensures |qs| == |lines|
  {
    if lines == [] then []
    else
      var k := |lines| - 1;
      AllQuoted(lines[..k], lazy) + [if k in lazy then lines[k] else Quoted(lines[k])]
  }

  lemma QuotedMore(before: seq<string>, line: string, lazy: set<nat>)
    ensures AllQuoted(before + [line], lazy) == AllQuoted(before, lazy) + [if |before| in lazy then line else Quoted(line)]
  {
    assert (before + [line])[..|before|] == before;
  }

  /** Before text that goes on with a paragraph the marker can be left out. */
  lemma QuoteLazy(scan: Scanners, d: Frame, fs: Chain, line: string, lineNumber: nat)
    requires d.kind == Document && Continuation(scan, fs, line, lineNumber, Document) && line[0] != '>'
    ensures Processed(scan, Wrap(d, fs), line, lineNumber) == Wrap(d, Processed(scan, fs, line, lineNumber))
  {
    var s := Ended(line);
    AskPrefix(RulesOf(scan, s), scan, s, Wrap(d, fs)[1], START);
    NestLazy(scan, QuoteIn(d), fs, line, lineNumber, 1);
  }

  // The quoted lines leave the same blocks in a quote.
  ghost predicate InQuote(scan: Scanners, lines: seq<string>, lazy: set<nat>) {
    var fs := Run(scan, lines);
    Rooted(fs) && Run(scan, AllQuoted(lines, lazy)) == Wrap(New(Document).(children := 1), fs)
  }

  // One more line has no tab among its marks; a lazy one goes on with a paragraph.
  ghost predicate QuotableLine(scan: Scanners, before: seq<string>, line: string, lazy: set<nat>) {
    && Plain(line, |before|)
    && (|before| in lazy ==> Continuation(scan, Run(scan, before), line, |before|, Document) && line[0] != '>')
  }

  ghost predicate QuotableAt(scan: Scanners, lines: seq<string>, lazy: set<nat>, i: nat)
    requires i < |lines|
  {
    QuotableLine(scan, lines[..i], lines[i], lazy)
  }

  lemma OneInQuote(scan: Scanners, line: string, lazy: set<nat>)
    requires Local(scan) && Plain(line, 0) && 0 !in lazy
    ensures InQuote(scan, [line], lazy)
  {
    QuotedMore([], line, lazy);
    RunMore(scan, [], line);
    RunMore(scan, [], Quoted(line));
    assert [] + [line] == [line] && AllQuoted([], lazy) + [Quoted(line)] == [] + [Quoted(line)];
    QuoteFirst(scan, line);
  }

  lemma MoreInQuote(scan: Scanners, before: seq<string>, line: string, lazy: set<nat>)
    requires Local(scan) && InQuote(scan, before, lazy) && QuotableLine(scan, before, line, lazy)
    ensures InQuote(scan, before + [line], lazy)
  {
    var d := New(Document).(children := 1);
    QuotedMore(before, line, lazy);
    RunMore(scan, before, line);
    RunMore(scan, AllQuoted(before, lazy), if |before| in lazy then line else Quoted(line));
    QuoteProcessed(scan, d, Run(scan, before), line, |before|);
    if |before| in lazy {
      QuoteLazy(scan, d, Run(scan, before), line, |before|);
    }
  }

  // The first line continues nothing.
  lemma FirstNotLazy(scan: Scanners, line: string, lazy: set<nat>)
    requires QuotableLine(scan, [], line, lazy)
    ensures 0 !in lazy
  {
  }

  ghost predicate Quotable(scan: Scanners, lines: seq<string>, lazy: set<nat>) {
    forall i: nat | i < |lines| :: QuotableAt(scan, lines, lazy, i)
  }

  lemma QuotableBefore(scan: Scanners, before: seq<string>, line: string, lazy: set<nat>)
    requires Quotable(scan, before + [line], lazy)
    ensures Quotable(scan, before, lazy) && QuotableLine(scan, before, line, lazy)
  {
    var lines := before + [line];
    assert lines[..|before|] == before && QuotableAt(scan, lines, lazy, |before|);
    forall i: nat | i < |before| ensures QuotableAt(scan, before, lazy, i) {
      assert lines[..i] == before[..i] && QuotableAt(scan, lines, lazy, i);
    }
  }

  /** Section 5.1: the blocks that are open after some lines without tabs among their marks are those open after the quoted
      lines, inside a quote, and the marker can be left out before text that goes on with a paragraph. */
  lemma {:induction false} QuotedRun(scan: Scanners, lines: seq<string>, lazy: set<nat>)
    requires Local(scan) && lines != [] && Quotable(scan, lines, lazy)
    ensures InQuote(scan, lines, lazy)
    decreases |lines|
  {
    var (n, line) := (|lines| - 1, lines[|lines| - 1]);
    var before := lines[..n];
    assert lines == before + [line];
    QuotableBefore(scan, before, line, lazy);
    if n == 0 {
      assert before == [] && lines == [line];
      FirstNotLazy(scan, line, lazy);
      OneInQuote(scan, line, lazy);
    } else {
      QuotedRun(scan, before, lazy);
      MoreInQuote(scan, before, line, lazy);
    }
  }
}
