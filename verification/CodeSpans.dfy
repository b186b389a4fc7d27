/** Code spans of inlines.c on values: runs of backticks, the closer of a run, and normalization of the content. */
module CodeSpans {
  import opened Common
  import opened Emphasis

  const MAX_BACKTICKS: nat := 80

  // ---------- runs of backticks ----------

  predicate Tick(input: string, i: int) {
    0 <= i < |input| && input[i] == '`'
  }

  function RunEnd(input: string, p: nat): (e: nat)
    requires p <= |input|
    ensures p <= e <= |input|
    decreases |input| - p
  {
    if Tick(input, p) then RunEnd(input, p + 1) else p
  }

  function NextTick(input: string, p: nat): (q: nat)
    requires p <= |input|
    ensures p <= q <= |input| && (q < |input| ==> Tick(input, q))
    decreases |input| - p
  {
    if p < |input| && !Tick(input, p) then NextTick(input, p + 1) else p
  }

  lemma {:induction false} RunTicks(input: string, p: nat)
    requires p <= |input|
    ensures forall i | p <= i < RunEnd(input, p) :: Tick(input, i)
    ensures !Tick(input, RunEnd(input, p))
    decreases |input| - p
  {
    if Tick(input, p) {
      RunTicks(input, p + 1);
    }
  }

  lemma {:induction false} TextTicks(input: string, p: nat)
    requires p <= |input|
    ensures forall i | p <= i < NextTick(input, p) :: !Tick(input, i)
    decreases |input| - p
  {
    if p < |input| && !Tick(input, p) {
      TextTicks(input, p + 1);
    }
  }

  /** A maximal run of n backticks at a, seen from position p on. */
  ghost predicate IsRun(input: string, p: nat, a: int, n: int) {
    && p <= a && n > 0 && a + n <= |input|
    && (forall i | a <= i < a + n :: Tick(input, i))
    && (a == p || !Tick(input, a - 1))
    && !Tick(input, a + n)
  }

  ghost predicate HasRun(input: string, p: nat, n: nat) {
    exists a :: IsRun(input, p, a, n)
  }

  // Between text and text: not in the middle of a run and not at the start of one.
  predicate Clear(input: string, p: nat) {
    p <= |input| && !Tick(input, p)
  }

  // ---------- the search on values ----------

  // A scan from p for a run of length n: where it ends, if there is one, and the start of the last run it passed
  // for each length.
  datatype Scanned = Scanned(end: Option<nat>, memo: seq<nat>)

  function Store(memo: seq<nat>, n: nat, start: nat): (m: seq<nat>)
    ensures |m| == |memo|
  {
    if n < |memo| then memo[n := start] else memo
  }

  function Scan(input: string, p: nat, n: nat, memo: seq<nat>): (s: Scanned)
    requires p <= |input|
    ensures |s.memo| == |memo|
    ensures s.end.Some? ==> p < s.end.value <= |input| && p + n <= s.end.value
    decreases |input| - p
  {
    var a := NextTick(input, p);
    if a == |input| then Scanned(None, memo)
    else
      var e := RunEnd(input, a);
      assert e > a;
      var memo' := Store(memo, e - a, a);
      if e - a == n then Scanned(Some(e), memo') else Scan(input, e, n, memo')
  }

  // The first run seen from p on.
  lemma FirstRun(input: string, p: nat)
    requires p <= |input| && NextTick(input, p) < |input|
    ensures var a := NextTick(input, p);
            RunEnd(input, a) > a && IsRun(input, p, a, RunEnd(input, a) - a)
  {
    TextTicks(input, p);
    RunTicks(input, NextTick(input, p));
    var t := Tick(input, NextTick(input, p) - 1);
  }

  // The runs seen from p on are the first one and those seen from its end on.
  lemma RunsFrom(input: string, p: nat, b: int, m: int)
    requires p <= |input| && NextTick(input, p) < |input|
    ensures var a := NextTick(input, p);
            var e := RunEnd(input, a);
            IsRun(input, p, b, m) <==> (b == a && m == e - a) || IsRun(input, e, b, m)
  {
    FirstRun(input, p);
    var a := NextTick(input, p);
    var e := RunEnd(input, a);
    TextTicks(input, p);
    RunTicks(input, a);
    var (t0, t1, t2, t3) := (Tick(input, b), Tick(input, b - 1), Tick(input, b + m), Tick(input, e));
  }

  lemma NoRuns(input: string, p: nat, b: int, m: int)
    requires p <= |input| && NextTick(input, p) == |input|
    ensures !IsRun(input, p, b, m)
  {
    TextTicks(input, p);
    var t := Tick(input, b);
  }

  // The runs of length n from p on: those from the end of the first run on, and that one if it has the length.
  lemma RunsOfLength(input: string, p: nat, n: int)
    requires p <= |input| && NextTick(input, p) < |input|
    ensures var a := NextTick(input, p);
            var e := RunEnd(input, a);
            forall b :: IsRun(input, p, b, n) <==> (b == a && n == e - a) || IsRun(input, e, b, n)
  {
    var a := NextTick(input, p);
    var e := RunEnd(input, a);
    forall b ensures IsRun(input, p, b, n) <==> (b == a && n == e - a) || IsRun(input, e, b, n) {
      RunsFrom(input, p, b, n);
    }
  }

  /** A scan that finds something ends at the first maximal run of exactly that length; one that finds nothing
      means there is no such run. */
  lemma {:induction false} ScanFindsFirst(input: string, p: nat, n: nat, memo: seq<nat>)
    requires p <= |input| && n > 0
    ensures match Scan(input, p, n, memo).end
            case None => !HasRun(input, p, n)
            case Some(e) => IsRun(input, p, e - n, n) && forall b | IsRun(input, p, b, n) :: e - n <= b
    decreases |input| - p
  {
    var a := NextTick(input, p);
    if a == |input| {
      forall b ensures !IsRun(input, p, b, n) {
        NoRuns(input, p, b, n);
      }
    } else {
      FirstRun(input, p);
      var e := RunEnd(input, a);
      RunsOfLength(input, p, n);
      if e - a != n {
        ScanFindsFirst(input, e, n, Store(memo, e - a, a));
      }
    }
  }

  // ---------- the memo ----------

  // The start of the last run of length m among those that end by stop.
  ghost predicate IsLastRun(input: string, p: nat, stop: nat, m: nat, a: nat) {
    && IsRun(input, p, a, m) && a + m <= stop
    && forall b | IsRun(input, p, b, m) && b + m <= stop :: b <= a
  }

  ghost predicate RunBy(input: string, p: nat, stop: nat, m: nat) {
    exists a :: IsRun(input, p, a, m) && a + m <= stop
  }

  function Stop(input: string, p: nat, n: nat, memo: seq<nat>): (stop: nat)
    requires p <= |input|
    ensures p <= stop <= |input|
  {
    var r := Scan(input, p, n, memo).end;
    if r.Some? then r.value else |input|
  }

  // The entry for length m after the runs from p up to stop were stored in order.
  ghost predicate Stored(input: string, p: nat, stop: nat, m: nat, was: nat, now: nat) {
    if RunBy(input, p, stop, m) then IsLastRun(input, p, stop, m, now) else now == was
  }

  // Storing the first run, then those from its end on.
  lemma StoredFirst(input: string, p: nat, stop: nat, m: nat, was: nat, now: nat)
    requires p <= |input| && NextTick(input, p) < |input| && m > 0
    requires var a := NextTick(input, p);
             var e := RunEnd(input, a);
             e <= stop && Stored(input, e, stop, m, if m == e - a then a else was, now)
    ensures Stored(input, p, stop, m, was, now)
  {
    var a := NextTick(input, p);
    var e := RunEnd(input, a);
    FirstRun(input, p);
    RunsOfLength(input, p, m);
    if b :| IsRun(input, e, b, m) && b + m <= stop {
      assert RunBy(input, e, stop, m);
    }
  }

  /** What a scan leaves in the memo: for each length, the last run of that length among those it passed. */
  lemma {:induction false} ScanMemo(input: string, p: nat, n: nat, memo: seq<nat>, m: nat)
    requires p <= |input| && n > 0 && 1 <= m < |memo|
    ensures Stored(input, p, Stop(input, p, n, memo), m, memo[m], Scan(input, p, n, memo).memo[m])
    decreases |input| - p
  {
    var a := NextTick(input, p);
    if a == |input| {
      forall b ensures !IsRun(input, p, b, m) {
        NoRuns(input, p, b, m);
      }
    } else {
      var e := RunEnd(input, a);
      assert e > a;
      if e - a != n {
        ScanMemo(input, e, n, Store(memo, e - a, a), m);
      } else {
        NothingStored(input, e, m, Store(memo, e - a, a)[m]);
      }
      StoredFirst(input, p, Stop(input, p, n, memo), m, memo[m], Scan(input, p, n, memo).memo[m]);
    }
  }

  lemma NothingStored(input: string, e: nat, m: nat, was: nat)
    requires m > 0
    ensures Stored(input, e, e, m, was, was)
  {
  }

  /** For every length the memo holds the start of the last run from p on, or something not past p. */
  ghost predicate Exact(input: string, memo: seq<nat>, p: nat) {
    forall m | 1 <= m < |memo| ::
      if HasRun(input, p, m) then IsLastRun(input, p, |input|, m, memo[m]) else memo[m] <= p
  }

  /** A scan through the whole input makes the memo exact. */
  lemma FailingScanExact(input: string, p: nat, n: nat, memo: seq<nat>)
    requires p <= |input| && n > 0 && Scan(input, p, n, memo).end.None?
    requires forall m | 1 <= m < |memo| :: memo[m] <= p
    ensures Exact(input, Scan(input, p, n, memo).memo, p)
  {
    forall m | 1 <= m < |memo|
      ensures var memo' := Scan(input, p, n, memo).memo;
              if HasRun(input, p, m) then IsLastRun(input, p, |input|, m, memo'[m]) else memo'[m] <= p
    {
      ScanMemo(input, p, n, memo, m);
      if HasRun(input, p, m) {
        var a :| IsRun(input, p, a, m);
        assert RunBy(input, p, |input|, m);
      }
    }
  }

  // The cursor after an opening run: what is seen from a later cursor is what was seen from an earlier one.
  lemma LaterRuns(input: string, p: nat, q: nat, b: int, m: int)
    requires p <= q && Clear(input, q)
    ensures IsRun(input, q, b, m) ==> IsRun(input, p, b, m) && b > q
    ensures IsRun(input, p, b, m) && b >= q ==> IsRun(input, q, b, m)
  {
    var (t0, t1) := (Tick(input, q), Tick(input, b));
  }

  /** An exact memo stays exact for every later cursor. */
  lemma ExactLater(input: string, memo: seq<nat>, p: nat, q: nat)
    requires Exact(input, memo, p) && p <= q && Clear(input, q)
    ensures Exact(input, memo, q)
  {
    forall m | 1 <= m < |memo|
      ensures if HasRun(input, q, m) then IsLastRun(input, q, |input|, m, memo[m]) else memo[m] <= q
    {
      forall b ensures IsRun(input, q, b, m) ==> IsRun(input, p, b, m) && b > q {
        LaterRuns(input, p, q, b, m);
      }
      forall b ensures IsRun(input, p, b, m) && b >= q ==> IsRun(input, q, b, m) {
        LaterRuns(input, p, q, b, m);
      }
      if a :| IsRun(input, q, a, m) {
        assert HasRun(input, p, m);
      } else if HasRun(input, p, m) {
        assert IsRun(input, p, memo[m], m);
      }
    }
  }

  /** With an exact memo the shortcut refuses exactly the cursors that have no closer ahead. */
  lemma ExactRefusal(input: string, memo: seq<nat>, q: nat, m: nat)
    requires Exact(input, memo, q) && Clear(input, q) && 1 <= m < |memo|
    ensures memo[m] <= q <==> !HasRun(input, q, m)
  {
    if HasRun(input, q, m) {
      LaterRuns(input, q, q, memo[m], m);
    }
  }

  // What scan_to_closing_backticks answers: the limit, then the shortcut, then the scan.
  function Answer(input: string, scanned: bool, memo: seq<nat>, q: nat, n: nat): Option<nat>
    requires q <= |input| && |memo| == MAX_BACKTICKS + 1
  {
    if n > MAX_BACKTICKS || (scanned && memo[n] <= q) then None else Scan(input, q, n, memo).end
  }

  /** With an exact memo the answer is that of a scan without a memo. */
  lemma ExactAnswer(input: string, memo: seq<nat>, q: nat, n: nat)
    requires Exact(input, memo, q) && Clear(input, q) && 1 <= n <= MAX_BACKTICKS && |memo| == MAX_BACKTICKS + 1
    ensures Answer(input, true, memo, q, n) == Scan(input, q, n, memo).end
  {
    ExactRefusal(input, memo, q, n);
    ScanFindsFirst(input, q, n, memo);
  }

  /** After a scan from q that ended at e, the answer for length m at a later cursor is that of a scan exactly unless
      the earlier scan passed a run of length m and another one still lies ahead. */
  lemma AnswerAfterSuccess(input: string, memo: seq<nat>, q: nat, n: nat, later: nat, m: nat)
    requires Exact(input, memo, q) && Clear(input, q) && n > 0 && |memo| == MAX_BACKTICKS + 1
    requires Scan(input, q, n, memo).end.Some?
    requires Scan(input, q, n, memo).end.value <= later && Clear(input, later) && 1 <= m <= MAX_BACKTICKS
    ensures var (e, now) := (Scan(input, q, n, memo).end.value, Scan(input, q, n, memo).memo);
            Answer(input, true, now, later, m) == Scan(input, later, m, now).end
            <==> !(RunBy(input, q, e, m) && HasRun(input, later, m))
  {
    var now := Scan(input, q, n, memo).memo;
    ScanMemo(input, q, n, memo, m);
    ExactLater(input, memo, q, later);
    ExactRefusal(input, memo, later, m);
    ScanFindsFirst(input, later, m, now);
  }

  /** For the length just found the shortcut refuses every later run, so a second code span of the same length is lost. */
  lemma SecondSpanLost(input: string, memo: seq<nat>, q: nat, n: nat, later: nat)
    requires Exact(input, memo, q) && Clear(input, q) && 1 <= n <= MAX_BACKTICKS && |memo| == MAX_BACKTICKS + 1
    requires Scan(input, q, n, memo).end.Some?
    requires Scan(input, q, n, memo).end.value <= later && Clear(input, later) && HasRun(input, later, n)
    ensures var now := Scan(input, q, n, memo).memo;
            Answer(input, true, now, later, n) == None && Scan(input, later, n, now).end.Some?
  {
    PassedOwnRun(input, q, n, memo);
    AnswerAfterSuccess(input, memo, q, n, later, n);
    ScanFindsFirst(input, later, n, Scan(input, q, n, memo).memo);
  }

  // A successful scan has passed the run it ends with.
  lemma PassedOwnRun(input: string, q: nat, n: nat, memo: seq<nat>)
    requires q <= |input| && n > 0 && Scan(input, q, n, memo).end.Some?
    ensures RunBy(input, q, Scan(input, q, n, memo).end.value, n)
  {
    ScanFindsFirst(input, q, n, memo);
    var e := Scan(input, q, n, memo).end.value;
    assert IsRun(input, q, e - n, n);
  }

  // ---------- a whole run of calls ----------

  // What the subject keeps between the calls: whether a scan has failed, the memo, and how far it has read.
  datatype Subj = Subj(scanned: bool, memo: seq<nat>, pos: nat)

  // A call of scan_to_closing_backticks: the cursor behind an opening run, and the length of that run.
  datatype Call = Call(at: nat, n: nat)

  function Called(input: string, s: Subj, call: Call): (t: Subj)
    requires |s.memo| == MAX_BACKTICKS + 1 && call.at <= |input|
    ensures |t.memo| == MAX_BACKTICKS + 1
  {
    if call.n > MAX_BACKTICKS || (s.scanned && s.memo[call.n] <= call.at) then s.(pos := call.at)
    else
      var r := Scan(input, call.at, call.n, s.memo);
      Subj(s.scanned || r.end.None?, r.memo, if r.end.Some? then r.end.value else call.at)
  }

  // The cursor never goes back, and stands behind a whole run.
  ghost predicate May(input: string, s: Subj, call: Call) {
    s.pos <= call.at && Clear(input, call.at) && call.n > 0
  }

  // The subject after some calls, all of them allowed.
  ghost predicate Legal(input: string, calls: seq<Call>)
    decreases |calls|, 0
  {
    calls == [] || (Legal(input, calls[..|calls| - 1]) && May(input, After(input, calls[..|calls| - 1]), calls[|calls| - 1]))
  }

  ghost function After(input: string, calls: seq<Call>): (s: Subj)
    requires Legal(input, calls)
    ensures |s.memo| == MAX_BACKTICKS + 1
    decreases |calls|, 1
  {
    if calls == [] then Subj(false, seq(MAX_BACKTICKS + 1, _ => 0), 0)
    else Called(input, After(input, calls[..|calls| - 1]), calls[|calls| - 1])
  }

  // The lengths of the runs that were passed by the successful scans since a scan failed.
  ghost function Passed(input: string, calls: seq<Call>): (passed: iset<int>)
    requires Legal(input, calls)
  {
    if calls == [] then iset{}
    else
      var (before, call) := (calls[..|calls| - 1], calls[|calls| - 1]);
      var s := After(input, before);
      Passed(input, before) + if s.scanned then PassedBy(input, s, call) else iset{}
  }

  // A refused or failed call passes nothing that counts.
  ghost function PassedBy(input: string, s: Subj, call: Call): iset<int>
    requires |s.memo| == MAX_BACKTICKS + 1 && call.at <= |input|
  {
    if call.n > MAX_BACKTICKS || (s.scanned && s.memo[call.n] <= call.at) then iset{}
    else
      match Scan(input, call.at, call.n, s.memo).end
      case None => iset{}
      case Some(e) => iset m: int | m > 0 && RunBy(input, call.at, e, m)
  }

  // A length whose runs were not passed has its last run in the memo; all other entries lie behind the cursor.
  ghost predicate Tracked(input: string, memo: seq<nat>, q: nat, passed: iset<int>) {
    forall m | 1 <= m < |memo| ::
      if HasRun(input, q, m) && m !in passed then IsLastRun(input, q, |input|, m, memo[m]) else memo[m] <= q
  }

  ghost predicate Known(input: string, s: Subj, q: nat, passed: iset<int>) {
    if s.scanned then Tracked(input, s.memo, q, passed)
    else passed == iset{} && forall m | 1 <= m < |s.memo| :: s.memo[m] <= q
  }

  lemma TrackedLater(input: string, memo: seq<nat>, p: nat, q: nat, passed: iset<int>)
    requires Tracked(input, memo, p, passed) && p <= q && Clear(input, q)
    ensures Tracked(input, memo, q, passed)
  {
    forall m | 1 <= m < |memo|
      ensures if HasRun(input, q, m) && m !in passed then IsLastRun(input, q, |input|, m, memo[m]) else memo[m] <= q
    {
      forall b ensures IsRun(input, q, b, m) ==> IsRun(input, p, b, m) && b > q {
        LaterRuns(input, p, q, b, m);
      }
      forall b ensures IsRun(input, p, b, m) && b >= q ==> IsRun(input, q, b, m) {
        LaterRuns(input, p, q, b, m);
      }
      if a :| IsRun(input, q, a, m) {
        assert HasRun(input, p, m);
      } else if HasRun(input, p, m) && m !in passed {
        assert IsRun(input, p, memo[m], m);
      }
    }
  }

  // One entry over a successful scan.
  lemma TrackedEntry(input: string, q: nat, e: nat, m: nat, was: nat, now: nat, passed: bool)
    requires q <= e && Clear(input, e) && m > 0 && Stored(input, q, e, m, was, now)
    requires if HasRun(input, q, m) && !passed then IsLastRun(input, q, |input|, m, was) else was <= q
    ensures var now_passed := passed || RunBy(input, q, e, m);
            if HasRun(input, e, m) && !now_passed then IsLastRun(input, e, |input|, m, now) else now <= e
  {
    forall b ensures IsRun(input, e, b, m) ==> IsRun(input, q, b, m) && b > e {
      LaterRuns(input, q, e, b, m);
    }
    forall b ensures IsRun(input, q, b, m) && b >= e ==> IsRun(input, e, b, m) {
      LaterRuns(input, q, e, b, m);
    }
    if !RunBy(input, q, e, m) && HasRun(input, q, m) && !passed {
      assert IsRun(input, q, was, m) && !(was + m <= e);
      var t := Tick(input, e);
      assert IsRun(input, e, was, m);
    }
    if a :| IsRun(input, e, a, m) {
      assert HasRun(input, q, m);
    }
  }

  lemma ScanStop(input: string, q: nat, n: nat, memo: seq<nat>)
    requires q <= |input| && n > 0 && Scan(input, q, n, memo).end.Some?
    ensures Clear(input, Scan(input, q, n, memo).end.value)
  {
    ScanFindsFirst(input, q, n, memo);
  }

  lemma TrackedScan(input: string, memo: seq<nat>, q: nat, n: nat, passed: iset<int>)
    requires Tracked(input, memo, q, passed) && q <= |input| && n > 0 && Scan(input, q, n, memo).end.Some?
    ensures var s := Scan(input, q, n, memo);
            Tracked(input, s.memo, s.end.value, passed + iset m: int | m > 0 && RunBy(input, q, s.end.value, m))
  {
    var s := Scan(input, q, n, memo);
    ScanStop(input, q, n, memo);
    forall m | 1 <= m < |memo|
      ensures if HasRun(input, s.end.value, m) && !(m in passed || RunBy(input, q, s.end.value, m))
              then IsLastRun(input, s.end.value, |input|, m, s.memo[m]) else s.memo[m] <= s.end.value
    {
      ScanMemo(input, q, n, memo, m);
      TrackedEntry(input, q, s.end.value, m, memo[m], s.memo[m], m in passed);
    }
  }

  // A scan before any has failed leaves every entry behind the place it stops at.
  lemma UnscannedSuccess(input: string, memo: seq<nat>, q: nat, n: nat)
    requires (forall m | 1 <= m < |memo| :: memo[m] <= q) && q <= |input| && n > 0 && Scan(input, q, n, memo).end.Some?
    ensures var s := Scan(input, q, n, memo);
            forall m | 1 <= m < |memo| :: s.memo[m] <= s.end.value
  {
    var s := Scan(input, q, n, memo);
    forall m | 1 <= m < |memo| ensures s.memo[m] <= s.end.value {
      ScanMemo(input, q, n, memo, m);
    }
  }

  // With the shortcut on, whatever is not refused is found.
  lemma NotRefusedFound(input: string, memo: seq<nat>, q: nat, n: nat, passed: iset<int>)
    requires Tracked(input, memo, q, passed) && q <= |input| && 1 <= n < |memo| && memo[n] > q
    ensures Scan(input, q, n, memo).end.Some?
  {
    ScanFindsFirst(input, q, n, memo);
  }

  lemma CalledKnown(input: string, s: Subj, call: Call, passed: iset<int>)
    requires |s.memo| == MAX_BACKTICKS + 1 && May(input, s, call) && Known(input, s, call.at, passed)
    ensures var t := Called(input, s, call);
            t.pos >= call.at && Known(input, t, t.pos, passed + if s.scanned then PassedBy(input, s, call) else iset{})
  {
    var (q, n) := (call.at, call.n);
    if n <= MAX_BACKTICKS && !(s.scanned && s.memo[n] <= q) {
      if s.scanned {
        NotRefusedFound(input, s.memo, q, n, passed);
        TrackedScan(input, s.memo, q, n, passed);
      } else if Scan(input, q, n, s.memo).end.Some? {
        UnscannedSuccess(input, s.memo, q, n);
      } else {
        FailingScanExact(input, q, n, s.memo);
      }
    }
    assert passed + iset{} == passed;
  }

  lemma KnownLater(input: string, s: Subj, p: nat, q: nat, passed: iset<int>)
    requires Known(input, s, p, passed) && p <= q && Clear(input, q)
    ensures Known(input, s, q, passed)
  {
    if s.scanned {
      TrackedLater(input, s.memo, p, q, passed);
    }
  }

  /** After any calls the memo knows the last run of every length but those that a successful scan has passed since
      a scan failed; their entries lie behind the cursor. */
  lemma {:induction false} MemoKnows(input: string, calls: seq<Call>)
    requires Legal(input, calls)
    ensures var s := After(input, calls);
            Known(input, s, s.pos, Passed(input, calls))
  {
    if calls != [] {
      var (before, call) := (calls[..|calls| - 1], calls[|calls| - 1]);
      var s := After(input, before);
      MemoKnows(input, before);
      KnownLater(input, s, s.pos, call.at, Passed(input, before));
      CalledKnown(input, s, call, Passed(input, before));
    }
  }

  /** After any calls the answer to the next one is that of a scan without a memo if and only if it is not the case that
      a run of its length was passed by a successful scan since a scan failed, and another one still lies ahead. */
  lemma AnswerExact(input: string, calls: seq<Call>, call: Call)
    requires Legal(input, calls) && May(input, After(input, calls), call) && call.n <= MAX_BACKTICKS
    ensures var s := After(input, calls);
            Answer(input, s.scanned, s.memo, call.at, call.n) == Scan(input, call.at, call.n, s.memo).end
            <==> !(call.n in Passed(input, calls) && HasRun(input, call.at, call.n))
  {
    var s := After(input, calls);
    MemoKnows(input, calls);
    KnownLater(input, s, s.pos, call.at, Passed(input, calls));
    ScanFindsFirst(input, call.at, call.n, s.memo);
    if HasRun(input, call.at, call.n) {
      var m := s.memo[call.n];
      LaterRuns(input, call.at, call.at, m, call.n);
    }
  }

  // With a closer ahead the shortcut refuses exactly the lengths that were passed.
  lemma RefusedIfPassed(input: string, calls: seq<Call>, call: Call)
    requires Legal(input, calls) && May(input, After(input, calls), call) && call.n <= MAX_BACKTICKS
    requires HasRun(input, call.at, call.n)
    ensures var s := After(input, calls);
            s.scanned && s.memo[call.n] <= call.at <==> call.n in Passed(input, calls)
  {
    var s := After(input, calls);
    AnswerExact(input, calls, call);
    ScanFindsFirst(input, call.at, call.n, s.memo);
  }

  // Two backticks with no closer, then `a` and `b`.
  const TWO_SPANS: string := "`` `a` `b`"

  /** In `` `a` `b` the opening pair finds no closer, `a` is a code span, and `b` is refused though it is closed. */
  lemma MemoRefusesCodeSpan()
    ensures var m0 := seq(MAX_BACKTICKS + 1, _ => 0);
            var m1 := Scan(TWO_SPANS, 2, 2, m0).memo;
            var m2 := Scan(TWO_SPANS, 4, 1, m1).memo;
            && Answer(TWO_SPANS, false, m0, 2, 2) == None
            && Answer(TWO_SPANS, true, m1, 4, 1) == Some(6)
            && Answer(TWO_SPANS, true, m2, 8, 1) == None
            && Scan(TWO_SPANS, 8, 1, m2).end == Some(10)
  {
    var m0 := seq(MAX_BACKTICKS + 1, _ => 0);
    var t := TWO_SPANS;
    assert NextTick(t, 10) == 10;
    assert RunEnd(t, 9) == 10 && NextTick(t, 8) == 9;
    assert RunEnd(t, 7) == 8 && NextTick(t, 6) == 7;
    assert RunEnd(t, 5) == 6 && NextTick(t, 4) == 5;
    assert RunEnd(t, 3) == 4 && NextTick(t, 2) == 3;
    assert Scan(t, 8, 1, m0[1 := 9]).end == Some(10);
    var m1 := Scan(t, 2, 2, m0).memo;
    assert Scan(t, 10, 2, m0[1 := 3][1 := 5][1 := 7][1 := 9]) == Scanned(None, m0[1 := 3][1 := 5][1 := 7][1 := 9]);
    assert Scan(t, 8, 2, m0[1 := 3][1 := 5][1 := 7]) == Scan(t, 10, 2, m0[1 := 3][1 := 5][1 := 7][1 := 9]);
    assert Scan(t, 6, 2, m0[1 := 3][1 := 5]) == Scan(t, 8, 2, m0[1 := 3][1 := 5][1 := 7]);
    assert Scan(t, 4, 2, m0[1 := 3]) == Scan(t, 6, 2, m0[1 := 3][1 := 5]);
    assert Scan(t, 2, 2, m0) == Scan(t, 4, 2, m0[1 := 3]);
    assert m1[1] == 9;
  }
}
