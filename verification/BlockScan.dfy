/** The hand-written scanners of blocks.c: thematic breaks with their memo, list markers, and what is left to scanners.c. */
module BlockScan {

  import opened Common
  import opened BlockTree
  import opened Columns
  import opened LineCursor

  // What scanners.c and the reference definitions answer; zero is no match.
  datatype Scanners = Scanners(
    definitions: string -> string,
    atxHeading: (string, nat) -> nat,
    setextHeading: (string, nat) -> nat,
    openFence: (string, nat) -> nat,
    closeFence: (string, nat) -> nat,
    htmlStart: (string, nat) -> nat,
    htmlStart7: (string, nat) -> nat,
    htmlEnd: (nat, string, nat) -> bool)

  // is_blank: only spaces and tabs before the first line ending
  predicate BlankText(s: string)
    decreases |s|
  {
    s == "" || LineEnd(s[0]) || (SpaceOrTab(s[0]) && BlankText(s[1..]))
  }

  // ---------- thematic breaks ----------

  // Where a run of one mark, spaces and tabs ends, and how many marks it holds.
  function MarkRun(input: string, i: nat, mark: char, count: nat): (r: (nat, nat))
    ensures r.0 >= i && r.1 >= count
    decreases |input| - i
  {
    var c := Peek(input, i);
    if c == '\0' then (i, count)
    else if c == mark then MarkRun(input, i + 1, mark, count + 1)
    else if SpaceOrTab(c) then MarkRun(input, i + 1, mark, count)
    else (i, count)
  }

  // S_scan_thematic_break: the length of a match, or zero and the position at which it failed.
  function ScanBreak(input: string, offset: nat): (r: (nat, nat))
    ensures r.0 == 0 ==> r.1 >= offset
  {
    var mark := Peek(input, offset);
    if mark != '*' && mark != '_' && mark != '-' then (0, offset)
    else
      var (end, count) := MarkRun(input, offset + 1, mark, 1);
      if count >= 3 && LineEnd(Peek(input, end)) then (end - offset + 1, 0) else (0, end)
  }

  lemma {:induction false} RunFromInside(input: string, i: nat, mark: char, count: nat, p: nat, fewer: nat)
    requires i <= p <= MarkRun(input, i, mark, count).0
    ensures MarkRun(input, p, mark, fewer).0 == MarkRun(input, i, mark, count).0
    ensures MarkRun(input, p, mark, fewer).1 - fewer <= MarkRun(input, i, mark, count).1 - count
    decreases p - i
  {
    if i < p {
      RunFromInside(input, i + 1, mark, if Peek(input, i) == mark then count + 1 else count, p, fewer);
    } else {
      CountShifts(input, i, mark, count, fewer);
    }
  }

  lemma {:induction false} CountShifts(input: string, i: nat, mark: char, count: nat, other: nat)
    ensures MarkRun(input, i, mark, count).0 == MarkRun(input, i, mark, other).0
    ensures MarkRun(input, i, mark, count).1 - count == MarkRun(input, i, mark, other).1 - other
    decreases |input| - i
  {
    var c := Peek(input, i);
    if c == mark && c != '\0' {
      CountShifts(input, i + 1, mark, count + 1, other + 1);
    } else if SpaceOrTab(c) {
      CountShifts(input, i + 1, mark, count, other);
    }
  }

  // Inside a run stand only its mark, spaces and tabs.
  lemma {:induction false} RunHolds(input: string, i: nat, mark: char, count: nat, p: nat)
    requires i <= p < MarkRun(input, i, mark, count).0
    ensures Peek(input, p) == mark || SpaceOrTab(Peek(input, p))
    decreases p - i
  {
    if i < p {
      RunHolds(input, i + 1, mark, if Peek(input, i) == mark then count + 1 else count, p);
    }
  }

  /** The memo is exact: where a scan failed, no scan from before that place matches. */
  lemma KillPositionExact(input: string, offset: nat, p: nat)
    requires ScanBreak(input, offset).0 == 0 && offset <= p < ScanBreak(input, offset).1
    ensures ScanBreak(input, p).0 == 0
  {
    var mark := Peek(input, offset);
    if p > offset {
      RunHolds(input, offset + 1, mark, 1, p);
      if Peek(input, p) == mark {
        RunFromInside(input, offset + 1, mark, 1, p + 1, 1);
      }
    }
  }

  lemma BytesProgress(input: string, c: Cursor, count: nat)
    requires count > 0 && More(input, c)
    ensures Advance(input, c, count, false).offset > c.offset
  {
  }

  // A thematic break leaves at least one byte to skip before the line's last.
  lemma BreakAhead(input: string, c: Cursor)
    requires c.offset <= |input| && ScanBreak(input, Nonspace(input, c.offset, c.column).0).0 > 0
    ensures BeforeEnd(input, c).offset > c.offset
  {
    var at := Nonspace(input, c.offset, c.column).0;
    assert MarkRun(input, at + 1, Peek(input, at), 1).0 >= at + 1;
    BytesProgress(input, c, |input| - 1 - c.offset);
  }

  // ---------- list markers ----------

  // Up to nine digits: where they end, and their value.
  function Digits(input: string, pos: nat, left: nat, value: nat): (r: (nat, nat))
    ensures pos <= r.0 <= pos + left
    decreases left
  {
    if left == 0 || !Digit(Peek(input, pos)) then (pos, value)
    else Digits(input, pos + 1, left - 1, 10 * value + (input[pos] as int - '0' as int))
  }

  // Only spaces and tabs follow up to the line ending.
  predicate NothingFollows(input: string, pos: nat) {
    LineEnd(Peek(input, Nonspace(input, pos, 0).0))
  }

  datatype Marker = NoMarker | Marker(matched: nat, data: ListData)

  // parse_list_marker
  function ListMarker(input: string, pos: nat, interruptsParagraph: bool): (r: Marker)
    ensures r.Marker? ==> r.matched > 0
  {
    var c := Peek(input, pos);
    if c == '*' || c == '-' || c == '+' then
      if !Space(Peek(input, pos + 1)) || (interruptsParagraph && Peek(input, Nonspace(input, pos + 1, 0).0) == '\n') then NoMarker
      else Marker(1, ListData(false, c, false, 0, 0, 0))
    else if Digit(c) then
      var (end, start) := Digits(input, pos, 9, 0);
      var delimiter := Peek(input, end);
      if (interruptsParagraph && start != 1) || (delimiter != '.' && delimiter != ')') || !Space(Peek(input, end + 1))
         || (interruptsParagraph && NothingFollows(input, end + 1)) then NoMarker
      else Marker(end + 1 - pos, ListData(true, '\0', delimiter == ')', start, 0, 0))
    else NoMarker
  }

  // ---------- what a marker is ----------

  // Section 5.2 of the GitHub Flavored Markdown Spec: a bullet and a blank.
  predicate BulletAt(input: string, pos: nat) {
    (Peek(input, pos) == '*' || Peek(input, pos) == '-' || Peek(input, pos) == '+') && Space(Peek(input, pos + 1))
  }

  predicate DigitsAt(input: string, pos: nat, n: nat) {
    forall k | pos <= k < pos + n :: Digit(Peek(input, k))
  }

  // One to nine digits, a period or parenthesis, and a blank.
  predicate NumberAt(input: string, pos: nat, n: nat) {
    1 <= n <= 9 && DigitsAt(input, pos, n) && (Peek(input, pos + n) == '.' || Peek(input, pos + n) == ')') && Space(Peek(input, pos + n + 1))
  }

  function Power(n: nat): nat {
    if n == 0 then 1 else 10 * Power(n - 1)
  }

  // The number of n digits.
  function Number(input: string, pos: nat, n: nat): (v: nat)
    requires DigitsAt(input, pos, n)
    ensures v < Power(n)
  {
    if n == 0 then 0
    else
      var last := pos + n - 1;
      10 * Number(input, pos, n - 1) + (Peek(input, last) as int - '0' as int)
  }

  lemma {:induction false} DigitsFrom(input: string, pos: nat, n: nat, j: nat)
    requires DigitsAt(input, pos, n) && j <= n <= 9 && (n < 9 ==> !Digit(Peek(input, pos + n)))
    ensures DigitsAt(input, pos, j) && Digits(input, pos + j, 9 - j, Number(input, pos, j)) == (pos + n, Number(input, pos, n))
    decreases n - j
  {
    if j < n {
      DigitsFrom(input, pos, n, j + 1);
    }
  }

  // The digits that stand there, nine at most.
  lemma DigitRun(input: string, pos: nat) returns (n: nat)
    ensures n <= 9 && DigitsAt(input, pos, n) && (n < 9 ==> !Digit(Peek(input, pos + n)))
    ensures Digits(input, pos, 9, 0) == (pos + n, Number(input, pos, n))
  {
    n := 0;
    while n < 9 && Digit(Peek(input, pos + n))
      invariant n <= 9 && DigitsAt(input, pos, n)
    {
      n := n + 1;
    }
    DigitsFrom(input, pos, n, 0);
  }

  // A marker cannot start an item inside a paragraph when nothing follows it.
  predicate BulletFits(input: string, pos: nat, interrupts: bool) {
    !(interrupts && Peek(input, Nonspace(input, pos + 1, 0).0) == '\n')
  }

  // Nor when it is not the number one.
  predicate NumberFits(input: string, pos: nat, n: nat, interrupts: bool)
    requires DigitsAt(input, pos, n)
  {
    !(interrupts && (Number(input, pos, n) != 1 || NothingFollows(input, pos + n + 1)))
  }

  // A marker lies in the line and holds no tab.
  lemma MarkerBytes(input: string, pos: nat, interrupts: bool)
    ensures var m := ListMarker(input, pos, interrupts);
            m.Marker? ==> pos + m.matched <= |input| && forall k :: pos <= k < pos + m.matched ==> input[k] != '\t' && input[k] != '\0'
  {
    var n := DigitRun(input, pos);
    var m := ListMarker(input, pos, interrupts);
    if m.Marker? {
      forall k | pos <= k < pos + m.matched ensures k < |input| && input[k] != '\t' && input[k] != '\0' {
        var c := Peek(input, k);
      }
    }
  }

  /** A marker is found exactly where there is one; its number has nine digits at most and fits an int. */
  lemma MarkerIsGfm(input: string, pos: nat, interrupts: bool)
    ensures var m := ListMarker(input, pos, interrupts);
            && (BulletAt(input, pos) && BulletFits(input, pos, interrupts) <==> m.Marker? && !m.data.ordered)
            && (m.Marker? && !m.data.ordered ==> m.matched == 1 && m.data.bullet == Peek(input, pos))
    ensures var m := ListMarker(input, pos, interrupts);
            m.Marker? && m.data.ordered <==> exists n :: NumberAt(input, pos, n) && NumberFits(input, pos, n, interrupts)
    ensures var m := ListMarker(input, pos, interrupts);
            m.Marker? && m.data.ordered ==>
              && m.matched >= 2 && NumberAt(input, pos, m.matched - 1)
              && m.data.start == Number(input, pos, m.matched - 1) < 0x8000_0000
              && m.data.paren == (Peek(input, pos + m.matched - 1) == ')')
  {
    var n := DigitRun(input, pos);
    assert Power(9) == 1_000_000_000;
    PowerRises(n, 9);
    forall k: nat | NumberAt(input, pos, k) ensures k == n {
      assert k < n ==> Digit(Peek(input, pos + k));
    }
    var number := NumberAt(input, pos, n);
  }

  lemma {:induction false} PowerRises(a: nat, b: nat)
    requires a <= b
    ensures Power(a) <= Power(b)
    decreases b - a
  {
    if a < b {
      PowerRises(a + 1, b);
    }
  }

  // lists_match
  predicate ListsMatch(a: ListData, b: ListData) {
    a.ordered == b.ordered && a.paren == b.paren && a.bullet == b.bullet
  }

  // ---------- which block starts here ----------

  datatype Start = NoStart | Quote | Atx(length: nat) | CodeFence(length: nat) | Html(htmlType: nat) | Setext | Rule
                 | Bullet(marker: Marker) | Indented

  /** The branches of open_new_blocks, as if every thematic break were scanned for. */
  function Choice(scan: Scanners, input: string, at: nat, indent: nat, blank: bool, kind: Kind, allMatched: bool, maybeLazy: bool): Start {
    var indented := indent >= 4;
    var marker := ListMarker(input, at, kind == Paragraph);
    if !indented && Peek(input, at) == '>' then Quote
    else if !indented && scan.atxHeading(input, at) > 0 then Atx(scan.atxHeading(input, at))
    else if !indented && scan.openFence(input, at) > 0 then CodeFence(scan.openFence(input, at))
    else if !indented && scan.htmlStart(input, at) > 0 then Html(scan.htmlStart(input, at))
    else if !indented && kind != Paragraph && scan.htmlStart7(input, at) > 0 then Html(scan.htmlStart7(input, at))
    else if !indented && kind == Paragraph && scan.setextHeading(input, at) > 0 then Setext
    else if !indented && !(kind == Paragraph && !allMatched) && ScanBreak(input, at).0 > 0 then Rule
    else if (!indented || kind == List) && indent < 4 && marker.Marker? then Bullet(marker)
    else if indented && !maybeLazy && !blank then Indented
    else NoStart
  }

  // No thematic break starts between a place and the memo.
  ghost predicate KillExact(input: string, from: nat, kill: nat) {
    forall p :: from <= p < kill ==> ScanBreak(input, p).0 == 0
  }

  lemma {:induction false} SpacesBetween(input: string, offset: nat, column: nat, p: nat)
    requires offset <= p < Nonspace(input, offset, column).0
    ensures SpaceOrTab(Peek(input, p))
    decreases p - offset
  {
    if offset < p {
      SpacesBetween(input, offset + 1, Past(input[offset], column), p);
    }
  }

  // A failed scan at the first non-space moves the memo on.
  lemma KillMoves(input: string, offset: nat, column: nat)
    requires ScanBreak(input, Nonspace(input, offset, column).0).0 == 0
    ensures KillExact(input, offset, ScanBreak(input, Nonspace(input, offset, column).0).1)
  {
    var at := Nonspace(input, offset, column).0;
    forall p | offset <= p < ScanBreak(input, at).1 ensures ScanBreak(input, p).0 == 0 {
      if p < at {
        SpacesBetween(input, offset, column, p);
      } else {
        KillPositionExact(input, at, p);
      }
    }
  }
}
