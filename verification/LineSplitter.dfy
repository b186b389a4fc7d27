/** Feeding the parser: S_parser_feed and the end of cmark_parser_finish in blocks.c. One char stands for one byte. */
module LineSplitter {

  import opened Common

  // U+FFFD in UTF-8.
  const REPLACEMENT: string := ['\U{EF}', '\U{BF}', '\U{BD}']

  function Replace(s: string): string {
    if s == "" then "" else (if s[0] == '\0' then REPLACEMENT else [s[0]]) + Replace(s[1..])
  }

  // ---------- lines of a whole input ----------

  function FirstEnd(s: string): (e: nat)
    ensures e <= |s| && (forall i | 0 <= i < e :: !LineEnd(s[i])) && (e < |s| ==> LineEnd(s[e]))
  {
    if s == "" || LineEnd(s[0]) then 0 else 1 + FirstEnd(s[1..])
  }

  // What follows the line ending at e: CRLF is one ending.
  function AfterEnd(s: string, e: nat): (r: string)
    requires e < |s|
    ensures |r| < |s|
  {
    if s[e] == '\r' && e + 1 < |s| && s[e + 1] == '\n' then s[e + 2..] else s[e + 1..]
  }

  /** Section 2.1 of the GitHub Flavored Markdown Spec: lines end at CR, LF or CRLF or at the end of the input, and
      section 2.3: NUL becomes U+FFFD. An input that ends with a line ending has no empty line after it. */
  function Lines(s: string): seq<string>
    decreases |s|
  {
    if s == "" then []
    else
      var e := FirstEnd(s);
      [Replace(s[..e])] + if e == |s| then [] else Lines(AfterEnd(s, e))
  }

  // ---------- one byte at a time ----------

  // The carry-over between buffers, and the lines handed on so far.
  datatype Carry = Carry(linebuf: string, afterCr: bool, lines: seq<string>)

  function Eat(f: Carry, c: char): Carry {
    if c == '\n' && f.afterCr then f.(afterCr := false)
    else if LineEnd(c) then Carry("", c == '\r', f.lines + [f.linebuf])
    else Carry(f.linebuf + Replace([c]), false, f.lines)
  }

  function EatAll(f: Carry, s: string): Carry
    decreases |s|
  {
    if s == "" then f else EatAll(Eat(f, s[0]), s[1..])
  }

  // The text that is left without a line ending.
  function Flush(f: Carry): Carry {
    Carry("", f.afterCr, if f.linebuf == "" then f.lines else f.lines + [f.linebuf])
  }

  const FRESH := Carry("", false, [])

  lemma {:induction false} EatConcat(f: Carry, a: string, b: string)
    ensures EatAll(f, a + b) == EatAll(EatAll(f, a), b)
    decreases |a|
  {
    if a == "" {
      assert a + b == b;
    } else {
      assert (a + b)[1..] == a[1..] + b;
      EatConcat(Eat(f, a[0]), a[1..], b);
    }
  }

  lemma {:induction false} ReplaceConcat(a: string, b: string)
    ensures Replace(a + b) == Replace(a) + Replace(b)
  {
    if a == "" {
      assert a + b == b;
    } else {
      assert (a + b)[1..] == a[1..] + b;
      ReplaceConcat(a[1..], b);
    }
  }

  // Bytes without a line ending only extend the carried text.
  lemma {:induction false} EatText(f: Carry, s: string)
    requires s != "" && forall i | 0 <= i < |s| :: !LineEnd(s[i])
    ensures EatAll(f, s) == Carry(f.linebuf + Replace(s), false, f.lines)
    decreases |s|
  {
    var (c, t) := (s[0], s[1..]);
    assert s == [c] + t;
    ReplaceConcat([c], t);
    if t != "" {
      EatText(Eat(f, c), t);
      assert (f.linebuf + Replace([c])) + Replace(t) == f.linebuf + (Replace([c]) + Replace(t));
    }
  }

  // Carried text goes in front of the first line.
  function Prepend(buf: string, ls: seq<string>): seq<string> {
    if ls == [] then (if buf == "" then [] else [buf]) else [buf + ls[0]] + ls[1..]
  }

  // The lines still to come, with carried text before s and perhaps a CR just before it.
  function LinesFrom(f: Carry, s: string): seq<string> {
    Prepend(f.linebuf, Lines(if f.afterCr && s != "" && s[0] == '\n' then s[1..] else s))
  }

  lemma PrependFacts(a: string, b: string, ls: seq<string>)
    ensures Prepend("", ls) == ls
    ensures b != "" ==> Prepend(a, Prepend(b, ls)) == Prepend(a + b, ls)
  {
    if ls != [] {
      assert "" + ls[0] == ls[0];
      assert [ls[0]] + ls[1..] == ls;
      assert a + (b + ls[0]) == (a + b) + ls[0];
    }
  }

  // The first line, and what stays of the text behind it.
  lemma FirstOfText(s: string, t: string, e: nat)
    requires s != "" && !LineEnd(s[0]) && t == s[1..] && e == FirstEnd(s)
    ensures e == 1 + FirstEnd(t) && Replace(s[..e]) == Replace([s[0]]) + Replace(t[..e - 1])
    ensures e < |s| ==> AfterEnd(s, e) == AfterEnd(t, e - 1)
  {
    assert s[..e] == [s[0]] + t[..e - 1];
    ReplaceConcat([s[0]], t[..e - 1]);
  }

  lemma LinesOfText(s: string)
    requires s != "" && !LineEnd(s[0])
    ensures Replace([s[0]]) != "" && Lines(s) == Prepend(Replace([s[0]]), Lines(s[1..]))
  {
    var (e, t) := (FirstEnd(s), s[1..]);
    FirstOfText(s, t, e);
    if t == "" {
      assert Replace(t[..e - 1]) == "";
    }
  }

  // The step at a line ending.
  lemma LinesOfEnd(s: string)
    requires s != "" && LineEnd(s[0])
    ensures Lines(s) == [""] + Lines(AfterEnd(s, 0))
  {
    assert FirstEnd(s) == 0 && s[..0] == "";
    if |s| == 1 {
      assert AfterEnd(s, 0) == "";
    }
  }

  lemma {:induction false} LinesFromEat(f: Carry, s: string)
    ensures Flush(EatAll(f, s)).lines == f.lines + LinesFrom(f, s)
    decreases |s|
  {
    if s != "" {
      var (c, t, g) := (s[0], s[1..], Eat(f, s[0]));
      LinesFromEat(g, t);
      PrependFacts(f.linebuf, Replace([c]), Lines(t));
      if f.afterCr && c == '\n' {
      } else if LineEnd(c) {
        LinesOfEnd(s);
        PrependFacts("", "", Lines(AfterEnd(s, 0)));
        assert LinesFrom(g, t) == Lines(AfterEnd(s, 0));
        assert f.linebuf + "" == f.linebuf;
        assert f.linebuf + "" == f.linebuf;
        assert f.lines + [f.linebuf] + Lines(AfterEnd(s, 0)) == f.lines + ([f.linebuf + ""] + Lines(AfterEnd(s, 0)));
      } else {
        LinesOfText(s);
      }
    }
  }

  /** Eating a whole input and flushing gives exactly its lines. */
  lemma EatIsLines(s: string)
    ensures Flush(EatAll(FRESH, s)).lines == Lines(s)
  {
    LinesFromEat(FRESH, s);
    PrependFacts("", "", Lines(s));
    assert FRESH.lines + Lines(s) == Lines(s);
  }

  // ---------- feeding in chunks ----------

  function Concat(chunks: seq<string>): string {
    if chunks == [] then "" else chunks[0] + Concat(chunks[1..])
  }

  // Whether a buffer handed over as the last one has its unfinished line processed right away.
  predicate EndsInText(buffer: string) {
    buffer != "" && !LineEnd(buffer[|buffer| - 1]) && buffer[|buffer| - 1] != '\0'
  }

  // An empty buffer makes the parser forget a CR at the end of the one before.
  function FeedOne(f: Carry, buffer: string, eof: bool): Carry {
    if buffer == "" then f.(afterCr := false)
    else if eof && EndsInText(buffer) then Flush(EatAll(f, buffer))
    else EatAll(f, buffer)
  }

  // All chunks in order; only the last one may be announced as the end of the file.
  function FeedAll(f: Carry, chunks: seq<string>, eof: bool): Carry
    decreases |chunks|
  {
    if chunks == [] then f
    else if |chunks| == 1 then FeedOne(f, chunks[0], eof)
    else FeedAll(FeedOne(f, chunks[0], false), chunks[1..], eof)
  }

  predicate StartsWithLf(s: string) {
    s != "" && s[0] == '\n'
  }

  predicate EndsWithCr(s: string) {
    s != "" && s[|s| - 1] == '\r'
  }

  /** A CRLF is torn when an empty buffer stands between its two bytes. */
  predicate Torn(afterCr: bool, chunks: seq<string>)
    decreases |chunks|
  {
    chunks != [] &&
    if chunks[0] == "" then (afterCr && StartsWithLf(Concat(chunks[1..]))) || Torn(false, chunks[1..])
    else Torn(EndsWithCr(chunks[0]), chunks[1..])
  }

  lemma {:induction false} EatEnds(f: Carry, s: string)
    requires s != ""
    ensures EatAll(f, s).afterCr == EndsWithCr(s) && (EndsWithCr(s) ==> EatAll(f, s).linebuf == "")
    decreases |s|
  {
    if |s| > 1 {
      EatEnds(Eat(f, s[0]), s[1..]);
    } else {
      assert EatAll(f, s) == Eat(f, s[0]);
    }
  }

  lemma {:induction false} EatMoreLines(f: Carry, n: Carry, s: string)
    requires n.linebuf == f.linebuf && n.afterCr == f.afterCr
    ensures var (a, b) := (EatAll(f, s), EatAll(n, s));
            a.linebuf == b.linebuf && a.afterCr == b.afterCr && |a.lines| - |f.lines| == |b.lines| - |n.lines|
    decreases |s|
  {
    if s != "" {
      EatMoreLines(Eat(f, s[0]), Eat(n, s[0]), s[1..]);
    }
  }

  function Count(f: Carry): nat {
    |Flush(f).lines|
  }

  // Forgetting a CR costs a line when a line feed follows, and nothing otherwise.
  lemma ForgetCr(f: Carry, s: string)
    requires f.afterCr ==> f.linebuf == ""
    ensures var g := f.(afterCr := false);
            if f.afterCr && StartsWithLf(s) then Count(EatAll(g, s)) == Count(EatAll(f, s)) + 1
            else Flush(EatAll(g, s)).lines == Flush(EatAll(f, s)).lines
  {
    var g := f.(afterCr := false);
    if f.afterCr && StartsWithLf(s) {
      EatMoreLines(Eat(f, s[0]), Eat(g, s[0]), s[1..]);
    } else if s != "" {
      AfterCrForgotten(f, s);
    }
  }

  // What feeding gives beside the lines of the text: as many or, torn, more.
  lemma {:induction false} FeedIsEat(f: Carry, chunks: seq<string>, eof: bool)
    requires f.afterCr ==> f.linebuf == ""
    ensures var (fed, whole) := (FeedAll(f, chunks, eof), EatAll(f, Concat(chunks)));
            if Torn(f.afterCr, chunks) then Count(fed) > Count(whole) else Flush(fed).lines == Flush(whole).lines
    decreases |chunks|
  {
    if chunks != [] {
      var (c, rest) := (chunks[0], chunks[1..]);
      if c == "" {
        assert Concat(chunks) == Concat(rest);
        ForgetCr(f, Concat(rest));
        FeedIsEat(f.(afterCr := false), rest, eof);
      } else {
        EatEnds(f, c);
        EatConcat(f, c, Concat(rest));
        FeedIsEat(EatAll(f, c), rest, eof);
        assert |chunks| == 1 ==> Concat(rest) == "";
      }
    }
  }

  lemma {:induction false} NoEmptyNotTorn(afterCr: bool, chunks: seq<string>)
    requires "" !in chunks
    ensures !Torn(afterCr, chunks)
    decreases |chunks|
  {
    if chunks != [] {
      NoEmptyNotTorn(EndsWithCr(chunks[0]), chunks[1..]);
    }
  }

  /** The lines do not depend on how the input is cut into buffers, nor on whether the last one is announced, if and only if
      no CRLF is torn by an empty buffer; buffers that are not empty tear none. */
  lemma ChunkingDoesNotMatter(chunks: seq<string>, eof: bool)
    ensures Flush(FeedAll(FRESH, chunks, eof)).lines == Lines(Concat(chunks)) <==> !Torn(false, chunks)
    ensures "" !in chunks ==> Flush(FeedAll(FRESH, chunks, eof)).lines == Lines(Concat(chunks))
  {
    FeedIsEat(FRESH, chunks, eof);
    EatIsLines(Concat(chunks));
    if "" !in chunks {
      NoEmptyNotTorn(false, chunks);
    }
  }

  /** CR, nothing, LF: one line ending becomes two. */
  lemma EmptyBufferTears()
    ensures Torn(false, ["\r", "", "\n"])
    ensures Lines(Concat(["\r", "", "\n"])) == [""] && Flush(FeedAll(FRESH, ["\r", "", "\n"], true)).lines == ["", ""]
  {
    var chunks := ["\r", "", "\n"];
    assert chunks[1..] == ["", "\n"] && ["", "\n"][1..] == ["\n"] && ["\n"][1..] == [];
    assert Concat(["\n"]) == "\n" + Concat([]) == "\n" && Concat(["", "\n"]) == "\n" && Concat(chunks) == "\r\n";
    assert EatAll(FRESH, "\r") == EatAll(Eat(FRESH, '\r'), "");
    assert EatAll(Carry("", false, [""]), "\n") == EatAll(Carry("", false, ["", ""]), "");
    assert FeedAll(Carry("", true, [""]), ["", "\n"], true) == FeedAll(Carry("", false, [""]), ["\n"], true);
  }

  // ---------- the parser ----------

  class Parser {
    var linebuf: string
    var lastBufferEndedWithCr: bool
    var processed: seq<string>

    constructor ()
      ensures Carried() == FRESH
    {
      linebuf, lastBufferEndedWithCr, processed := "", false, [];
    }

    function Carried(): Carry
      reads this
    {
      Carry(linebuf, lastBufferEndedWithCr, processed)
    }

    // S_process_line, of which only the line it is given matters here.
    method ProcessLine(line: string)
      modifies this`processed
      ensures processed == old(processed) + [line]
    {
      processed := processed + [line];
    }

    /** S_parser_feed. The byte behind an empty buffer, which the source reads, makes no difference. */
    method Feed(buffer: string, eof: bool, beyond: char)
      modifies this
      ensures Carried() == FeedOne(old(Carried()), buffer, eof)
    {
      ghost var f := Carried();
      var (pos, end) := (0, |buffer|);
      if lastBufferEndedWithCr && (if buffer == "" then beyond else buffer[0]) == '\n' {
        pos := 1;
      }
      lastBufferEndedWithCr := false;
      ghost var flushed := false;
      if buffer != "" {
        assert buffer[0..] == buffer && (pos == 1 ==> EatAll(f, buffer) == EatAll(Eat(f, buffer[0]), buffer[1..]));
        if pos == 0 {
          AfterCrForgotten(f, buffer);
        }
      }
      while pos < end
        invariant buffer == "" ==> Carried() == f.(afterCr := false)
        invariant buffer != "" ==> pos <= end && (lastBufferEndedWithCr ==> pos == end)
        invariant flushed ==> pos == end && eof && EndsInText(buffer) && Carried() == Flush(EatAll(f, buffer))
        invariant buffer != "" && !flushed ==> EatAll(f, buffer) == EatAll(Carried(), buffer[pos..])
        invariant buffer != "" && !flushed && pos == end ==> !(eof && EndsInText(buffer))
        decreases end - pos
      {
        pos, flushed := TakeLine(buffer, pos, eof);
      }
    }

    /** The end of the input: what is left without a line ending is a line of its own. */
    method Finish()
      modifies this
      ensures Carried() == Flush(old(Carried()))
    {
      if linebuf != "" {
        ProcessLine(linebuf);
        linebuf := "";
      }
    }

    /** One turn of the loop: the text up to the next line ending or NUL, and that byte. */
    method TakeLine(buffer: string, start: nat, eof: bool) returns (pos: nat, ghost flushed: bool)
      requires start < |buffer| && !lastBufferEndedWithCr
      modifies this
      ensures start < pos <= |buffer| && (lastBufferEndedWithCr ==> pos == |buffer|)
      ensures flushed ==> pos == |buffer| && eof && EndsInText(buffer)
                          && Carried() == Flush(EatAll(old(Carried()), buffer[start..]))
      ensures !flushed ==> EatAll(old(Carried()), buffer[start..]) == EatAll(Carried(), buffer[pos..])
      ensures !flushed && pos == |buffer| ==> !(eof && EndsInText(buffer))
    {
      var end := |buffer|;
      var (eol, process) := (start, false);
      while eol < end
        invariant start <= eol <= end && !process
        invariant forall i | start <= i < eol :: !LineEnd(buffer[i]) && buffer[i] != '\0'
      {
        if LineEnd(buffer[eol]) {
          process := true;
          break;
        }
        if buffer[eol] == '\0' {
          break;
        }
        eol := eol + 1;
      }
      if eol >= end && eof {
        process := true;
      }
      var chunk := buffer[start..eol];
      ghost var f := Carried();
      ghost var g := Carry(f.linebuf + chunk, false, f.lines);
      EatChunk(f, buffer, start, eol);
      assert f.linebuf == "" ==> g.linebuf == chunk;
      if process {
        if linebuf != "" {
          linebuf := linebuf + chunk;
          ProcessLine(linebuf);
          linebuf := "";
        } else {
          ProcessLine(chunk);
        }
      } else if eol < end && buffer[eol] == '\0' {
        linebuf := linebuf + chunk + REPLACEMENT;
      } else {
        linebuf := linebuf + chunk;
      }
      flushed := eol == end && eof;
      pos := eol;
      assert buffer[end..] == "";
      if pos < end {
        EatStop(g, buffer, eol);
        if buffer[pos] == '\0' {
          pos := pos + 1;
        } else {
          if buffer[pos] == '\r' {
            pos := pos + 1;
            if pos == end {
              lastBufferEndedWithCr := true;
            }
          }
          if pos < end && buffer[pos] == '\n' {
            pos := pos + 1;
          }
        }
      }
    }
  }

  /** Any way of feeding a document in buffers processes the lines of the whole document, unless an empty one tears a CRLF. */
  method ProcessChunks(chunks: seq<string>, eof: bool, beyond: char) returns (processed: seq<string>)
    ensures processed == Lines(Concat(chunks)) <==> !Torn(false, chunks)
  {
    var parser := new Parser();
    assert chunks[0..] == chunks;
    for i := 0 to |chunks|
      invariant Flush(FeedAll(parser.Carried(), chunks[i..], eof)).lines == Flush(FeedAll(FRESH, chunks, eof)).lines
    {
      assert chunks[i..][1..] == chunks[i + 1..];
      parser.Feed(chunks[i], eof && i == |chunks| - 1, beyond);
    }
    assert chunks[|chunks|..] == [];
    parser.Finish();
    ChunkingDoesNotMatter(chunks, eof);
    processed := parser.processed;
  }

  // A CR just before matters only to a line feed that follows.
  lemma AfterCrForgotten(f: Carry, s: string)
    requires s != "" && !(f.afterCr && s[0] == '\n')
    ensures EatAll(f, s) == EatAll(f.(afterCr := false), s)
  {}

  // The byte that stops the loop: NUL, or a line ending of one or two bytes.
  lemma EatStop(g: Carry, buffer: string, eol: nat)
    requires eol < |buffer| && (LineEnd(buffer[eol]) || buffer[eol] == '\0') && !g.afterCr
    ensures var line := Carry("", false, g.lines + [g.linebuf]);
            EatAll(g, buffer[eol..]) ==
            if buffer[eol] == '\0' then EatAll(Carry(g.linebuf + REPLACEMENT, false, g.lines), buffer[eol + 1..])
            else if buffer[eol] == '\n' then EatAll(line, buffer[eol + 1..])
            else if eol + 1 == |buffer| then line.(afterCr := true)
            else if buffer[eol + 1] == '\n' then EatAll(line, buffer[eol + 2..])
            else EatAll(line, buffer[eol + 1..])
  {
    var rest := buffer[eol + 1..];
    assert buffer[eol..][0] == buffer[eol] && buffer[eol..][1..] == rest;
    assert Replace("\0") == REPLACEMENT + Replace("") == REPLACEMENT;
    if buffer[eol] == '\r' && rest != "" {
      if rest[0] == '\n' {
        assert rest[1..] == buffer[eol + 2..];
      } else {
        AfterCrForgotten(Carry("", true, g.lines + [g.linebuf]), rest);
      }
    }
  }

  lemma {:induction false} PlainReplace(s: string)
    requires forall i | 0 <= i < |s| :: s[i] != '\0'
    ensures Replace(s) == s
  {
    if s != "" {
      PlainReplace(s[1..]);
      assert s == [s[0]] + s[1..];
    }
  }

  // The text from start up to eol is carried over as it is.
  lemma EatChunk(f: Carry, buffer: string, start: nat, eol: nat)
    requires start < |buffer| && start <= eol <= |buffer| && !f.afterCr
    requires forall i | start <= i < eol :: !LineEnd(buffer[i]) && buffer[i] != '\0'
    ensures EatAll(f, buffer[start..]) == EatAll(Carry(f.linebuf + buffer[start..eol], false, f.lines), buffer[eol..])
  {
    var chunk := buffer[start..eol];
    assert buffer[start..] == chunk + buffer[eol..];
    EatConcat(f, chunk, buffer[eol..]);
    PlainReplace(chunk);
    if chunk != "" {
      EatText(f, chunk);
    } else {
      assert f.linebuf + chunk == f.linebuf;
    }
  }
}
