/** The backtick scanner of inlines.c with its memo, and the in-place and looping parts around code spans. */
module CodeScanner {
  import opened Common
  import opened Emphasis
  import opened CodeSpans
  import opened CodeText
  import opened CodeRoundTrip

  class Subject {
    const input: string
    var pos: nat
    const backticks: array<nat>
    var scannedForBackticks: bool

    constructor (input: string)
      requires '\0' !in input
      ensures Valid() && this.input == input && pos == 0 && !scannedForBackticks
      ensures fresh(backticks) && forall i | 0 <= i <= MAX_BACKTICKS :: backticks[i] == 0
    {
      this.input, pos, scannedForBackticks := input, 0, false;
      backticks := new nat[MAX_BACKTICKS + 1](_ => 0);
    }

    // NUL bytes have been replaced before inlines are parsed.
    ghost predicate Valid()
      reads this
    {
      pos <= |input| && '\0' !in input && backticks.Length == MAX_BACKTICKS + 1
    }

    ghost function State(): Subj
      reads this, backticks
    {
      Subj(scannedForBackticks, backticks[..], pos)
    }

    function PeekChar(): (c: char)
      requires Valid()
      reads this
      ensures c == '`' <==> Tick(input, pos)
      ensures c == '\0' <==> pos == |input|
    {
      if pos < |input| then input[pos] else '\0'
    }

    // Reads what is not a backtick.
    method SkipText()
      requires Valid()
      modifies this`pos
      ensures Valid() && pos == NextTick(input, old(pos))
    {
      while PeekChar() != '\0' && PeekChar() != '`'
        invariant Valid() && NextTick(input, pos) == NextTick(input, old(pos))
        decreases |input| - pos
      {
        pos := pos + 1;
      }
    }

    // Reads a run of backticks.
    method TakeTicks() returns (n: nat)
      requires Valid()
      modifies this`pos
      ensures Valid() && pos == RunEnd(input, old(pos)) && n == pos - old(pos)
    {
      n := 0;
      while PeekChar() == '`'
        invariant Valid() && RunEnd(input, pos) == RunEnd(input, old(pos)) && n == pos - old(pos)
        decreases |input| - pos
      {
        pos := pos + 1;
        n := n + 1;
      }
    }

    /** scan_to_closing_backticks: the position behind the closer, or 0. A refusal changes nothing; a scan leaves the
        memo of the runs it passed and stops behind the closer or at the end of the input. */
    method ScanToClosingBackticks(n: nat) returns (end: nat)
      requires Valid() && n > 0
      modifies this`pos, this`scannedForBackticks, backticks
      ensures Valid()
      ensures var answer := Answer(input, old(scannedForBackticks), old(backticks[..]), old(pos), n);
              end == if answer.Some? then answer.value else 0
      ensures var refused := n > MAX_BACKTICKS || (old(scannedForBackticks) && old(backticks[..])[n] <= old(pos));
              var s := Scan(input, old(pos), n, old(backticks[..]));
              if refused then pos == old(pos) && scannedForBackticks == old(scannedForBackticks) && backticks[..] == old(backticks[..])
              else pos == Stop(input, old(pos), n, old(backticks[..])) && backticks[..] == s.memo
                   && scannedForBackticks == (old(scannedForBackticks) || s.end.None?)
    {
      if n > MAX_BACKTICKS {
        return 0;
      }
      if scannedForBackticks && backticks[n] <= pos {
        return 0;
      }
      ghost var was := backticks[..];
      while true
        invariant Valid() && old(pos) <= pos
        invariant Scan(input, pos, n, backticks[..]) == Scan(input, old(pos), n, was)
        invariant scannedForBackticks == old(scannedForBackticks)
        decreases |input| - pos
      {
        SkipText();
        if pos == |input| {
          break;
        }
        ghost var (start, memo) := (pos, backticks[..]);
        var numTicks := TakeTicks();
        assert Tick(input, start) && pos > start;
        if numTicks <= MAX_BACKTICKS {
          backticks[numTicks] := pos - numTicks;
        }
        assert backticks[..] == Store(memo, numTicks, start);
        if numTicks == n {
          return pos;
        }
      }
      scannedForBackticks := true;
      return 0;
    }

    // The node for the answer; the source reports a refusal as zero.
    method MakeNode(p: nat, start: nat, end: nat, ghost span: Option<Span>) returns (r: Parsed)
      requires p < start <= |input| && (end > 0 ==> start <= end - (start - p) <= |input|)
      requires span == if end == 0 then None else Some(Span(start, end - (start - p), end))
      ensures r == NodeOf(input, p, start, span) && r.end == if end == 0 then start else end
    {
      BetweenIs(input, p, start);
      if end == 0 {
        r := TickText(input[p..start], start);
      } else {
        BetweenIs(input, start, end - (start - p));
        var literal := NormalizeCode(input[start..end - (start - p)]);
        r := Code(literal, end);
      }
    }

    /** handle_backticks: a code node, or the backticks as text with the cursor behind them. */
    method HandleBackticks() returns (r: Parsed)
      requires Valid() && Tick(input, pos)
      modifies this`pos, this`scannedForBackticks, backticks
      ensures Valid() && r == ParseAt(input, old(pos), old(scannedForBackticks), old(backticks[..])) && pos == r.end
      ensures var start := RunEnd(input, old(pos));
              State() == Called(input, old(State()), Call(start, start - old(pos)))
    {
      ghost var (p, scanned, memo) := (pos, scannedForBackticks, backticks[..]);
      var before := pos;
      var n := TakeTicks();
      var start := pos;
      var end := ScanToClosingBackticks(n);
      SpanOf(input, p, scanned, memo, start, n, end);
      if end == 0 {
        pos := start;
      }
      r := MakeNode(before, start, end, SpanAt(input, p, scanned, memo));
    }
  }

  // The span that the scan answers.
  lemma SpanOf(input: string, p: nat, scanned: bool, memo: seq<nat>, start: nat, n: nat, end: nat)
    requires p <= |input| && |memo| == MAX_BACKTICKS + 1 && start == RunEnd(input, p) == p + n && n > 0
    requires var answer := Answer(input, scanned, memo, start, n);
             end == if answer.Some? then answer.value else 0
    ensures end > 0 ==> p + n <= end - n && end <= |input|
    ensures SpanAt(input, p, scanned, memo) == if end == 0 then None else Some(Span(start, end - n, end))
  {
  }

  method NormalizeCode(content: string) returns (literal: string)
    ensures literal == Normalize(content)
  {
    var ptr := new char[|content| + 1](i => if 0 <= i < |content| then content[i] else '\0');
    assert ptr[..|content|] == content;
    var size := NormalizeInPlace(ptr, |content|);
    literal := ptr[..size];
  }

  // The state of the loop: the first w bytes are converted, those from r on untouched.
  ghost predicate Halfway(ptr: array<char>, s: string, r: nat, w: nat, containsNonspace: bool)
    requires r <= |s|
    reads ptr
  {
    && ptr.Length == |s| + 1 && ptr[|s|] == '\0'
    && w == |Convert(s, r)| && w <= r && ptr[..w] == Convert(s, r)
    && (forall k | r <= k < |s| :: ptr[k] == s[k])
    && (containsNonspace <==> Seen(s, r))
  }

  lemma GapSeen(s: string, r: nat)
    requires r <= |s| && |Convert(s, r)| < r
    ensures Seen(s, r)
  {
    ConvertSpaces(s, r);
    SeenIs(s, r);
  }

  lemma SeenLeavesText(s: string)
    requires Seen(s, |s|)
    ensures Convert(s, |s|) != ""
  {
    SeenIs(s, |s|);
    ConvertSpaces(s, |s|);
    if i: nat :| i < |s| && CrLfAt(s, i) {
      CrLfLeavesSpace(s, i, |s|);
    }
  }

  /** S_normalize_code on the buffer of a string, whose terminator stands behind the content: one pass converts line
      endings while a write index trails the read index, then one space goes from both ends. */
  method NormalizeInPlace(ptr: array<char>, size: nat) returns (newSize: nat)
    requires ptr.Length == size + 1 && ptr[size] == '\0'
    modifies ptr
    ensures newSize <= size && ptr[newSize] == '\0'
    ensures ptr[..newSize] == Normalize(old(ptr[..size]))
  {
    ghost var s := ptr[..size];
    var w, containsNonspace := ConvertAll(ptr, size);
    if containsNonspace {
      SeenLeavesText(s);
    }
    ghost var c := Convert(s, size);
    assert ptr[..w] == c;
    if containsNonspace && ptr[0] == ' ' && ptr[w - 1] == ' ' {
      newSize := DropEnds(ptr, size, w);
    } else {
      newSize := w;
      if newSize < size {
        ptr[newSize] := '\0';
      }
      assert ptr[..w] == c;
    }
  }

  method ConvertAll(ptr: array<char>, size: nat) returns (w: nat, containsNonspace: bool)
    requires ptr.Length == size + 1 && ptr[size] == '\0'
    modifies ptr
    ensures Halfway(ptr, old(ptr[..size]), size, w, containsNonspace)
  {
    ghost var s := ptr[..size];
    w, containsNonspace := 0, false;
    for r := 0 to size
      invariant Halfway(ptr, s, r, w, containsNonspace)
    {
      w, containsNonspace := ConvertOne(ptr, s, r, w, containsNonspace);
    }
  }

  // cmark_strbuf_drop of one byte, then cmark_strbuf_truncate to w - 2 bytes, or none.
  method DropEnds(ptr: array<char>, size: nat, w: nat) returns (newSize: nat)
    requires ptr.Length == size + 1 && 0 < w <= size
    modifies ptr
    ensures newSize <= size && ptr[newSize] == '\0'
    ensures ptr[..newSize] == Strip1(old(ptr[..w]))
  {
    ghost var c := ptr[..w];
    forall i | 0 <= i < size - 1 {
      ptr[i] := ptr[i + 1];
    }
    ptr[size - 1] := '\0';
    newSize := if w >= 2 then w - 2 else 0;
    if newSize < size - 1 {
      ptr[newSize] := '\0';
    }
    assert ptr[..newSize] == Strip1(c);
  }

  // One turn of the loop, at read index r.
  method ConvertOne(ptr: array<char>, ghost s: string, r: nat, w0: nat, seen0: bool) returns (w: nat, containsNonspace: bool)
    requires r < |s| && Halfway(ptr, s, r, w0, seen0)
    modifies ptr
    ensures Halfway(ptr, s, r + 1, w, containsNonspace)
  {
    w, containsNonspace := w0, seen0;
    ghost var c := Convert(s, r);
    if w < r {
      GapSeen(s, r);
    }
    match ptr[r] {
      case '\r' =>
        if ptr[r + 1] != '\n' {
          ptr[w] := ' ';
          w := w + 1;
        }
      case '\n' =>
        ptr[w] := ' ';
        w := w + 1;
      case _ =>
        ptr[w] := ptr[r];
        w := w + 1;
    }
    if ptr[r] != ' ' {
      containsNonspace := true;
    }
    assert ptr[..w] == c + Converted(s, r);
  }
}
