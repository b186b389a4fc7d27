/** Rendering a code span and parsing it back. */
module CodeRoundTrip {
  import opened Common
  import opened Emphasis
  import opened CodeSpans
  import opened CodeText

  // What handle_backticks makes at position p: the backticks as text, or a code node; and where it stops.
  datatype Parsed = TickText(ticks: string, end: nat) | Code(literal: string, end: nat)

  // The extent of a code span: the content from start up to stop, and the end behind the closing run.
  datatype Span = Span(start: nat, stop: nat, end: nat)

  function SpanAt(input: string, p: nat, scanned: bool, memo: seq<nat>): (r: Option<Span>)
    requires p <= |input| && |memo| == MAX_BACKTICKS + 1
    ensures r.Some? ==> r.value.start <= r.value.stop <= r.value.end <= |input|
  {
    var start := RunEnd(input, p);
    match Answer(input, scanned, memo, start, start - p)
    case None => None
    case Some(e) => Some(Span(start, e - (start - p), e))
  }

  // The text from a up to b.
  function Between(s: string, a: nat, b: nat): string
    requires a <= b <= |s|
    decreases b - a
  {
    if a == b then "" else Between(s, a, b - 1) + [s[b - 1]]
  }

  lemma {:induction false} BetweenIs(s: string, a: nat, b: nat)
    requires a <= b <= |s|
    ensures Between(s, a, b) == s[a..b]
    decreases b - a
  {
    if a < b {
      BetweenIs(s, a, b - 1);
    }
  }

  // What handle_backticks makes of it.
  function NodeOf(input: string, p: nat, start: nat, span: Option<Span>): Parsed
    requires p <= start <= |input| && (span.Some? ==> span.value.start <= span.value.stop <= |input|)
  {
    match span
    case None => TickText(Between(input, p, start), start)
    case Some(Span(from, stop, end)) => Code(Normalize(Between(input, from, stop)), end)
  }

  function ParseAt(input: string, p: nat, scanned: bool, memo: seq<nat>): Parsed
    requires p <= |input| && |memo| == MAX_BACKTICKS + 1
  {
    NodeOf(input, p, RunEnd(input, p), SpanAt(input, p, scanned, memo))
  }

  // A code node with this literal that ends there.
  predicate Gives(input: string, span: Option<Span>, code: string, end: nat) {
    && span.Some? && span.value.start <= span.value.stop <= |input|
    && span.value.end == end && Normalize(Between(input, span.value.start, span.value.stop)) == code
  }

  lemma GivesNode(input: string, p: nat, scanned: bool, memo: seq<nat>, code: string, end: nat)
    requires p <= |input| && |memo| == MAX_BACKTICKS + 1
    ensures Gives(input, SpanAt(input, p, scanned, memo), code, end) <==> ParseAt(input, p, scanned, memo) == Code(code, end)
  {}

  lemma {:induction false} RunEndIs(input: string, p: nat, e: nat)
    requires p <= e <= |input| && (forall i | p <= i < e :: Tick(input, i)) && !Tick(input, e)
    ensures RunEnd(input, p) == e
    decreases e - p
  {
    if p < e {
      RunEndIs(input, p + 1, e);
    }
  }

  lemma PaddedEnds(code: string)
    ensures var s := Padded(code);
            s != "" && s[0] != '`' && s[|s| - 1] != '`'
  {}

  // The code starts this far into the padded code.
  function Margin(code: string): nat {
    if NeedsSpaces(code) then 1 else 0
  }

  // Where the padded code lies in the input.
  ghost predicate Holds(input: string, start: nat, code: string) {
    && start + |Padded(code)| <= |input|
    && input[start..start + |Padded(code)|] == Padded(code)
  }

  lemma PaddedTicks(input: string, start: nat, code: string, i: int)
    requires Holds(input, start, code)
    ensures 0 <= i < |code| ==> (Tick(input, start + Margin(code) + i) <==> Tick(code, i))
    ensures start <= i < start + Margin(code) || start + Margin(code) + |code| <= i < start + |Padded(code)| ==> !Tick(input, i)
    ensures !Tick(input, start) && !Tick(input, start + |Padded(code)| - 1)
  {
    var s := Padded(code);
    PaddedEnds(code);
    assert 0 <= i < |code| ==> s[Margin(code) + i] == code[i];
    assert input[start] == input[start..start + |s|][0] && input[start + |s| - 1] == input[start..start + |s|][|s| - 1];
    if 0 <= i < |code| {
      assert input[start..start + |s|][Margin(code) + i] == input[start + Margin(code) + i];
    }
    if start <= i < start + |s| {
      assert input[start..start + |s|][i - start] == input[i];
    }
  }

  // The runs inside the padded code are the runs of the code.
  lemma RunOutward(input: string, start: nat, code: string, a: int, k: int)
    requires Holds(input, start, code) && IsRun(code, 0, a, k)
    ensures IsRun(input, start, start + Margin(code) + a, k)
  {
    var off := start + Margin(code);
    forall i | off + a <= i < off + a + k ensures Tick(input, i) {
      PaddedTicks(input, start, code, i - off);
      var t := Tick(code, i - off);
    }
    PaddedTicks(input, start, code, a - 1);
    PaddedTicks(input, start, code, a + k);
    PaddedTicks(input, start, code, off + a - 1);
    PaddedTicks(input, start, code, off + a + k);
  }

  lemma RunInward(input: string, start: nat, code: string, a: int, k: int)
    requires Holds(input, start, code) && IsRun(input, start, a, k) && a < start + |Padded(code)|
    ensures IsRun(code, 0, a - start - Margin(code), k)
  {
    var off := start + Margin(code);
    forall x | a - off <= x < a - off + k ensures Tick(code, x) {
      RunStaysInside(input, start, code, a, k, x + off);
      PaddedTicks(input, start, code, x);
      var t := Tick(input, x + off);
    }
    PaddedTicks(input, start, code, a - 1 - off);
    PaddedTicks(input, start, code, a + k - off);
    var (t0, t1) := (Tick(input, a), Tick(input, a + k - 1));
    RunStaysInside(input, start, code, a, k, a);
  }

  lemma RunStaysInside(input: string, start: nat, code: string, a: int, k: int, i: int)
    requires Holds(input, start, code) && IsRun(input, start, a, k) && a < start + |Padded(code)| && a <= i < a + k
    ensures start + Margin(code) <= i < start + Margin(code) + |code|
  {
    var last := start + |Padded(code)| - 1;
    PaddedTicks(input, start, code, i);
    PaddedTicks(input, start, code, a);
    PaddedTicks(input, start, code, last);
    var (t0, t1, t2) := (Tick(input, a), Tick(input, i), Tick(input, last));
  }

  // ---------- the round trip ----------

  // The input holds the rendering of the code at p, and no backtick follows it.
  ghost predicate Framed(input: string, p: nat, code: string, k: nat) {
    var start := p + k;
    var close := start + |Padded(code)|;
    && k > 0 && close + k <= |input| && Holds(input, start, code)
    && (forall i | p <= i < start || close <= i < close + k :: Tick(input, i))
    && !Tick(input, close + k)
  }

  // The rendering stands at p, and no backtick follows it.
  predicate RenderedAt(input: string, p: nat, code: string, k: nat) {
    var end := p + |Render(code, k)|;
    end <= |input| && Between(input, p, end) == Render(code, k) && !Tick(input, end)
  }

  // Between any texts that do not touch it with a backtick behind.
  lemma RenderedBetween(pre: string, code: string, k: nat, suf: string)
    requires suf != "" ==> suf[0] != '`'
    ensures RenderedAt(pre + Render(code, k) + suf, |pre|, code, k)
  {
    var r := Render(code, k);
    BetweenIs(pre + r + suf, |pre|, |pre| + |r|);
    assert (pre + r + suf)[|pre|..|pre| + |r|] == r;
  }

  // A rendering is fence, padded code and fence.
  lemma RenderParts(code: string, k: nat)
    ensures var (s, r) := (Padded(code), Render(code, k));
            |r| == k + |s| + k && r[k..k + |s|] == s && forall i | 0 <= i < k || k + |s| <= i < |r| :: r[i] == '`'
  {
    var (s, r, t) := (Padded(code), Render(code, k), Ticks(k));
    assert r == t + s + t && |t| == k;
    forall i | 0 <= i < k || k + |s| <= i < |r| ensures r[i] == '`' {
      assert r[i] == t[if i < k then i else i - k - |s|];
    }
  }

  lemma Within(input: string, p: nat, r: string, i: nat, j: nat)
    requires p + |r| <= |input| && input[p..p + |r|] == r && i <= j <= |r|
    ensures input[p + i..p + j] == r[i..j]
    ensures i < |r| ==> input[p + i] == r[i]
  {
    var whole := input[p..p + |r|];
    assert i < |r| ==> whole[i] == input[p + i];
    forall x | 0 <= x < j - i ensures input[p + i..p + j][x] == r[i..j][x] {
      assert whole[i + x] == input[p + i + x];
    }
  }

  lemma RenderingFences(input: string, p: nat, code: string, k: nat)
    requires var r := Render(code, k); p + |r| <= |input| && input[p..p + |r|] == r
    ensures var close := p + k + |Padded(code)|; forall i | p <= i < p + k || close <= i < close + k :: Tick(input, i)
  {
    var (r, close) := (Render(code, k), p + k + |Padded(code)|);
    RenderParts(code, k);
    forall i | p <= i < p + k || close <= i < close + k ensures Tick(input, i) {
      Within(input, p, r, i - p, i - p);
    }
  }

  lemma RenderingFramed(input: string, p: nat, code: string, k: nat)
    requires k > 0 && RenderedAt(input, p, code, k)
    ensures Framed(input, p, code, k) && |Render(code, k)| == k + |Padded(code)| + k
  {
    var (s, r) := (Padded(code), Render(code, k));
    RenderParts(code, k);
    BetweenIs(input, p, p + |r|);
    RenderingFences(input, p, code, k);
    Within(input, p, r, k, k + |s|);
  }

  lemma FenceRuns(input: string, p: nat, code: string, k: nat)
    requires Framed(input, p, code, k)
    ensures RunEnd(input, p) == p + k <= |input|
    ensures IsRun(input, p + k, p + k + |Padded(code)|, k)
  {
    PaddedTicks(input, p + k, code, 0);
    PaddedEnds(code);
    RunEndIs(input, p, p + k);
  }

  lemma NoEarlierCloser(input: string, start: nat, code: string, k: nat)
    requires Holds(input, start, code) && !HasRun(code, 0, k)
    ensures forall b | IsRun(input, start, b, k) :: start + |Padded(code)| <= b
  {
    forall b | IsRun(input, start, b, k) ensures start + |Padded(code)| <= b {
      if b < start + |Padded(code)| {
        RunInward(input, start, code, b, k);
      }
    }
  }

  // The opening run is the one rendered, and the closing run is the first of its length unless the code has one.
  lemma FramedRuns(input: string, p: nat, code: string, k: nat)
    requires Framed(input, p, code, k)
    ensures var start := p + k;
            var close := start + |Padded(code)|;
            && RunEnd(input, p) == start <= |input|
            && IsRun(input, start, close, k)
            && (!HasRun(code, 0, k) ==> forall b | IsRun(input, start, b, k) :: close <= b)
            && (HasRun(code, 0, k) ==> exists b :: IsRun(input, start, b, k) && b < close)
  {
    FenceRuns(input, p, code, k);
    if a :| IsRun(code, 0, a, k) {
      EarlierCloser(input, p + k, code, a, k);
    } else {
      NoEarlierCloser(input, p + k, code, k);
    }
  }

  lemma EarlierCloser(input: string, start: nat, code: string, a: int, k: nat)
    requires Holds(input, start, code) && IsRun(code, 0, a, k)
    ensures exists b :: IsRun(input, start, b, k) && b < start + |Padded(code)|
  {
    RunOutward(input, start, code, a, k);
    var t := Tick(code, a);
  }

  // The first run as long as the fence is the closing fence, unless the code has one.
  lemma FirstCloser(code: string, input: string, start: nat, close: nat, k: nat, memo: seq<nat>)
    requires start <= |input| && IsRun(input, start, close, k)
    requires !HasRun(code, 0, k) ==> forall b | IsRun(input, start, b, k) :: close <= b
    requires HasRun(code, 0, k) ==> exists b :: IsRun(input, start, b, k) && b < close
    ensures var r := Scan(input, start, k, memo).end;
            r.Some? && if HasRun(code, 0, k) then r.value < close + k else r.value == close + k
  {
    ScanFindsFirst(input, start, k, memo);
    assert HasRun(input, start, k);
  }

  lemma FramedCloser(input: string, p: nat, code: string, k: nat, memo: seq<nat>) returns (e: nat)
    requires Framed(input, p, code, k)
    ensures RunEnd(input, p) == p + k <= |input| && Scan(input, p + k, k, memo).end == Some(e)
    ensures var close := p + k + |Padded(code)|;
            if HasRun(code, 0, k) then e < close + k else e == close + k
  {
    FramedRuns(input, p, code, k);
    FirstCloser(code, input, p + k, p + k + |Padded(code)|, k, memo);
    e := Scan(input, p + k, k, memo).end.value;
  }

  lemma SpanIs(input: string, p: nat, k: nat, e: nat, memo: seq<nat>)
    requires p <= |input| && 0 < k <= 32 && |memo| == MAX_BACKTICKS + 1
    requires RunEnd(input, p) == p + k && Scan(input, p + k, k, memo).end == Some(e)
    ensures e >= k && SpanAt(input, p, false, memo) == Some(Span(p + k, e - k, e))
  {}

  lemma GivesCode(input: string, start: nat, stop: nat, end: nat, code: string)
    requires start <= stop <= |input| && Between(input, start, stop) == Padded(CString(code))
    ensures Gives(input, Some(Span(start, stop, end)), code, end) <==> '\0' !in code && NoLineEnds(code) && !AllSpaces(code)
  {
    WrittenRoundTrip(code);
  }

  lemma RenderedContent(input: string, p: nat, code: string, k: nat)
    requires k > 0 && RenderedAt(input, p, code, k)
    ensures |Render(code, k)| == k + |Padded(code)| + k && p + |Render(code, k)| <= |input|
    ensures Between(input, p + k, p + k + |Padded(code)|) == Padded(code)
  {
    RenderingFramed(input, p, code, k);
    BetweenIs(input, p + k, p + k + |Padded(code)|);
  }

  // The content between the fences gives the code.
  lemma RenderedGives(input: string, p: nat, code: string, k: nat, end: nat)
    requires k > 0 && RenderedAt(input, p, CString(code), k) && end == p + |Render(CString(code), k)|
    ensures p + k <= end - k
    ensures Gives(input, Some(Span(p + k, end - k, end)), code, end) <==> '\0' !in code && NoLineEnds(code) && !AllSpaces(code)
  {
    RenderedContent(input, p, CString(code), k);
    GivesCode(input, p + k, end - k, end, code);
  }

  // Where the scan behind the opening fence stops.
  lemma RenderedCloser(input: string, p: nat, code: string, k: nat, memo: seq<nat>) returns (e: nat)
    requires k > 0 && RenderedAt(input, p, code, k)
    ensures RunEnd(input, p) == p + k <= |input| && Scan(input, p + k, k, memo).end == Some(e)
    ensures if HasRun(code, 0, k) then e < p + |Render(code, k)| else e == p + |Render(code, k)|
    ensures Clear(input, p + k) && HasRun(input, p + k, k)
  {
    RenderingFramed(input, p, code, k);
    e := FramedCloser(input, p, code, k, memo);
    FenceAhead(input, p, code, k);
  }

  // The shortcut refuses, or the span is the one without it.
  lemma RefusedOrNot(input: string, p: nat, k: nat, scanned: bool, memo: seq<nat>)
    requires p <= |input| && |memo| == MAX_BACKTICKS + 1 && RunEnd(input, p) == p + k && 0 < k <= 32
    ensures SpanAt(input, p, scanned, memo) == if scanned && memo[k] <= p + k then None else SpanAt(input, p, false, memo)
  {}

  lemma FenceAhead(input: string, p: nat, code: string, k: nat)
    requires Framed(input, p, code, k)
    ensures p <= |input| && RunEnd(input, p) == p + k && Clear(input, p + k) && HasRun(input, p + k, k)
  {
    FenceRuns(input, p, code, k);
    RunTicks(input, p);
  }

  // Where the rendering at p ends.
  function EndOf(p: nat, code: string, k: nat): nat {
    p + |Render(CString(code), k)|
  }

  lemma RenderedSpan(input: string, p: nat, code: string, k: nat, scanned: bool, memo: seq<nat>)
    requires 1 <= k <= 32 && |memo| == MAX_BACKTICKS + 1 && RenderedAt(input, p, CString(code), k)
    ensures Gives(input, SpanAt(input, p, scanned, memo), code, EndOf(p, code, k))
            <==> '\0' !in code && NoLineEnds(code) && !AllSpaces(code) && !HasRun(code, 0, k) && !(scanned && memo[k] <= p + k)
  {
    var e := RenderedCloser(input, p, CString(code), k, memo);
    SpanIs(input, p, k, e, memo);
    RefusedOrNot(input, p, k, scanned, memo);
    if !HasRun(CString(code), 0, k) {
      RenderedGives(input, p, code, k, e);
    }
  }

  /** Parsing a code span rendered with any fence, in any text that does not touch it with a backtick, gives the code back and
      consumes exactly the rendering if and only if the code has no NUL, no line ending, something other than spaces, and no
      run as long as the fence, and the memo does not refuse. The renderer's fence, the shortest unused one, is only a run of
      the code when it is 32. */
  lemma RoundTrip(input: string, p: nat, code: string, k: nat, scanned: bool, memo: seq<nat>)
    requires 1 <= k <= 32 && |memo| == MAX_BACKTICKS + 1 && RenderedAt(input, p, CString(code), k)
    ensures ParseAt(input, p, scanned, memo) == Code(code, EndOf(p, code, k))
            <==> '\0' !in code && NoLineEnds(code) && !AllSpaces(code) && !HasRun(code, 0, k) && !(scanned && memo[k] <= p + k)
  {
    RenderedSpan(input, p, code, k, scanned, memo);
    GivesNode(input, p, scanned, memo, code, EndOf(p, code, k));
  }

  /** In any surroundings, behind any calls of the scanner: the code comes back if and only if it has no NUL, no line ending,
      something other than spaces and no run as long as the fence, and no successful scan has passed a run of that length
      since a scan failed. */
  lemma RoundTripAfter(input: string, p: nat, code: string, k: nat, calls: seq<Call>, s: Subj)
    requires 1 <= k <= 32 && RenderedAt(input, p, CString(code), k) && Legal(input, calls) && s == After(input, calls) && s.pos <= p
    ensures ParseAt(input, p, s.scanned, s.memo) == Code(code, EndOf(p, code, k))
            <==> '\0' !in code && NoLineEnds(code) && !AllSpaces(code) && !HasRun(code, 0, k) && k !in Passed(input, calls)
  {
    RoundTrip(input, p, code, k, s.scanned, s.memo);
    var e := RenderedCloser(input, p, CString(code), k, s.memo);
    RefusedIfPassed(input, calls, Call(p + k, k));
  }

  /** The same for a rendering set between any two texts. */
  lemma RoundTripBetween(pre: string, code: string, k: nat, suf: string, calls: seq<Call>, s: Subj)
    requires 1 <= k <= 32 && (suf != "" ==> suf[0] != '`')
    requires var input := pre + Render(CString(code), k) + suf; Legal(input, calls) && s == After(input, calls) && s.pos <= |pre|
    ensures var input := pre + Render(CString(code), k) + suf;
            ParseAt(input, |pre|, s.scanned, s.memo) == Code(code, |input| - |suf|)
            <==> '\0' !in code && NoLineEnds(code) && !AllSpaces(code) && !HasRun(code, 0, k) && k !in Passed(input, calls)
  {
    RenderedBetween(pre, CString(code), k, suf);
    RoundTripAfter(pre + Render(CString(code), k) + suf, |pre|, code, k, calls, s);
  }

  lemma RenderingOfB()
    ensures Shortest("b", 1) && Render("b", 1) == "`b`"
  {
    assert Padded("b") == "b";
    forall a ensures !IsRun("b", 0, a, 1) {
      var t := Tick("b", a);
    }
  }

  lemma NoAnswerNoCode(input: string, p: nat, memo: seq<nat>)
    requires p <= |input| && |memo| == MAX_BACKTICKS + 1 && RunEnd(input, p) == p + 1 && Answer(input, true, memo, p + 1, 1) == None
    ensures ParseAt(input, p, true, memo).TickText?
  {}

  /** A rendering that is not read back: behind two backticks without a closer and a code span, `b` stays text. */
  lemma RenderingRefused(m1: seq<nat>, m2: seq<nat>)
    requires m1 == Scan(TWO_SPANS, 2, 2, seq(MAX_BACKTICKS + 1, _ => 0)).memo && m2 == Scan(TWO_SPANS, 4, 1, m1).memo
    ensures TWO_SPANS == "`` `a` " + Render("b", 1) && Shortest("b", 1)
    ensures ParseAt(TWO_SPANS, 7, true, m2).TickText?
  {
    RenderingOfB();
    MemoRefusesCodeSpan();
    assert RunEnd(TWO_SPANS, 8) == 8;
    NoAnswerNoCode(TWO_SPANS, 7, m2);
  }
}
